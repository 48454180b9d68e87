/**
 * The stack machine of the graphing calculator (`evaluatePostfix` and
 * `evaluate` in mejs/Postfix.js), over the abstract operand values of
 * PostfixTokens. The machine is described one token at a time by
 * `EvalStep`; the imperative methods are proved to compute `Eval`, and
 * `Eval` is proved to compute the value of any expression tree from the
 * postfix form of that tree.
 */
module PostfixEval {
  import opened Wrappers
  import opened PostfixTokens
  import PostfixParser

  /** The top `n` values of `stack`, in the order they are popped: `ops[0]` is the top. */
  function TopValues(stack: seq<Value>, n: nat): (ops: seq<Value>)
    requires n <= |stack|
    ensures |ops| == n
    ensures forall k :: 0 <= k < n ==> ops[k] == stack[|stack| - 1 - k]
  {
    seq(n, k requires 0 <= k < n => stack[|stack| - 1 - k])
  }

  /**
   * One iteration of evaluatePostfix's loop: an operand pushes its value;
   * any other token pops as many values as it requires and pushes the
   * value of applying it to them.
   */
  function EvalStep(t: Token, stack: seq<Value>): Result<seq<Value>, Error> {
    if IsOperand(t) then
      Success(stack + [t.val])
    else
      match RequiredOperands(t)
      case Failure(e) => Failure(e)
      case Success(n) =>
        if |stack| < n then Failure(NotEnoughOperands)
        else
          match EvaluateByToken(t, TopValues(stack, n))
          case Failure(e) => Failure(e)
          case Success(v) => Success(stack[..|stack| - n] + [v])
  }

  /** The machine run over `postfix` from a given stack; at the end exactly one value must remain. */
  function EvalFrom(postfix: seq<Token>, stack: seq<Value>): Result<Value, Error>
    decreases |postfix|
  {
    if postfix == [] then
      if |stack| != 1 then Failure(TooManyOperands) else Success(stack[0])
    else
      match EvalStep(postfix[0], stack)
      case Failure(e) => Failure(e)
      case Success(stack') => EvalFrom(postfix[1..], stack')
  }

  /** `evaluatePostfix` as a function of the token list. */
  function Eval(postfix: seq<Token>): Result<Value, Error> {
    EvalFrom(postfix, [])
  }

  // ---------------------------------------------------------------------
  // One step
  // ---------------------------------------------------------------------

  /**
   * The errors of one step: a brace has no operand count, an operator or
   * function finding fewer values than it needs throws "not enough
   * operands", and nothing else fails (every token with an operand count
   * can be evaluated).
   */
  lemma EvalStepErrors(t: Token, stack: seq<Value>)
    ensures EvalStep(t, stack).Failure? <==>
      !IsOperand(t) && (IsBrace(t) || |stack| < RequiredOperands(t).value)
    ensures EvalStep(t, stack).Failure? ==>
      (EvalStep(t, stack).error == MissingOperandCount <==> IsBrace(t))
    ensures EvalStep(t, stack).Failure? ==>
      EvalStep(t, stack).error == MissingOperandCount || EvalStep(t, stack).error == NotEnoughOperands
  {
  }

  /**
   * A successful binary step replaces the two top values with the
   * operator applied to them, the value pushed earlier on the left.
   */
  lemma BinaryStep(t: Token, stack: seq<Value>)
    requires IsOperator(t) && |stack| >= 2
    ensures EvalStep(t, stack) ==
      Success(stack[..|stack| - 2] + [Binary(t.ty, stack[|stack| - 2], stack[|stack| - 1])])
  {
    var ops := TopValues(stack, 2);
    var v := EvaluateByToken(t, ops).value;
    assert ArgsOf(v) == [ops[1], ops[0]];
  }

  /** A successful function step replaces the top value with the function applied to it. */
  lemma FunctionStep(t: Token, stack: seq<Value>)
    requires IsFunction(t) && |stack| >= 1
    ensures EvalStep(t, stack) ==
      Success(stack[..|stack| - 1] + [Unary(t.ty, stack[|stack| - 1])])
  {
    var ops := TopValues(stack, 1);
    var v := EvaluateByToken(t, ops).value;
    assert ArgsOf(v) == [ops[0]];
  }

  // ---------------------------------------------------------------------
  // Expression trees and their postfix form
  // ---------------------------------------------------------------------

  /** Expression trees over tokens: an operand, a function of one argument, or an operator of two. */
  datatype Expr =
    | Atom(token: Token)
    | Apply1(fn: Token, arg: Expr)
    | Apply2(operator: Token, left: Expr, right: Expr)

  predicate WellFormed(e: Expr) {
    match e
    case Atom(t) => IsOperand(t)
    case Apply1(f, a) => IsFunction(f) && WellFormed(a)
    case Apply2(op, l, r) => IsOperator(op) && WellFormed(l) && WellFormed(r)
  }

  /** The postfix form of a tree: arguments first, left to right, then the operator. */
  function Emit(e: Expr): seq<Token> {
    match e
    case Atom(t) => [t]
    case Apply1(f, a) => Emit(a) + [f]
    case Apply2(op, l, r) => Emit(l) + Emit(r) + [op]
  }

  /** The value a tree stands for. */
  function Denote(e: Expr): Value {
    match e
    case Atom(t) => t.val
    case Apply1(f, a) => Unary(f.ty, Denote(a))
    case Apply2(op, l, r) => Binary(op.ty, Denote(l), Denote(r))
  }

  lemma EvalFromSingle(t: Token, rest: seq<Token>, stack: seq<Value>, stack': seq<Value>)
    requires EvalStep(t, stack) == Success(stack')
    ensures EvalFrom([t] + rest, stack) == EvalFrom(rest, stack')
  {
    assert ([t] + rest)[1..] == rest;
  }

  /**
   * Running the machine over the postfix form of a well-formed tree pushes
   * exactly the tree's value and leaves the rest of the stack alone.
   */
  lemma {:induction false} EvalEmit(e: Expr, rest: seq<Token>, stack: seq<Value>)
    requires WellFormed(e)
    ensures EvalFrom(Emit(e) + rest, stack) == EvalFrom(rest, stack + [Denote(e)])
    decreases e
  {
    match e
    case Atom(t) =>
      EvalFromSingle(t, rest, stack, stack + [Denote(e)]);
    case Apply1(f, a) =>
      assert Emit(e) + rest == Emit(a) + ([f] + rest);
      EvalEmit(a, [f] + rest, stack);
      var s1 := stack + [Denote(a)];
      FunctionStep(f, s1);
      assert s1[..|s1| - 1] == stack;
      EvalFromSingle(f, rest, s1, stack + [Denote(e)]);
    case Apply2(op, l, r) =>
      assert Emit(e) + rest == Emit(l) + (Emit(r) + ([op] + rest));
      EvalEmit(l, Emit(r) + ([op] + rest), stack);
      EvalEmit(r, [op] + rest, stack + [Denote(l)]);
      var s2 := stack + [Denote(l)] + [Denote(r)];
      BinaryStep(op, s2);
      assert s2[..|s2| - 2] == stack;
      assert s2[|s2| - 2] == Denote(l) && s2[|s2| - 1] == Denote(r);
      EvalFromSingle(op, rest, s2, stack + [Denote(e)]);
  }

  /** The postfix form of a well-formed tree evaluates to the tree's value. */
  lemma EvalOfEmit(e: Expr)
    requires WellFormed(e)
    ensures Eval(Emit(e)) == Success(Denote(e))
  {
    EvalEmit(e, [], []);
    assert Emit(e) + [] == Emit(e);
  }

  /** Values left over at the end are an error even when every operator had enough operands. */
  lemma LeftoverOperandsFail(e1: Expr, e2: Expr)
    requires WellFormed(e1) && WellFormed(e2)
    ensures Eval(Emit(e1) + Emit(e2)) == Failure(TooManyOperands)
  {
    EvalEmit(e1, Emit(e2), []);
    assert [] + [Denote(e1)] == [Denote(e1)];
    EvalEmit(e2, [], [Denote(e1)]);
    assert Emit(e2) + [] == Emit(e2);
    assert |[Denote(e1)] + [Denote(e2)]| == 2;
  }

  /** An empty token list leaves no value, which is reported as too many operands. */
  lemma EmptyFails()
    ensures Eval([]) == Failure(TooManyOperands)
  {
  }

  /** Convert infix tokens to postfix and run the machine on the result. */
  function ConvertAndEval(infix: seq<Token>): Result<Value, Error> {
    match PostfixParser.ToPostfix(infix)
    case Failure(e) => Failure(e)
    case Success(postfix) => Eval(postfix)
  }

  /** 1-2-3, converted and evaluated, is (1-2)-3: the conversion and the machine agree on left associativity. */
  lemma SubtractionGroupsLeft()
    ensures ConvertAndEval([PostfixParser.One, PostfixParser.Minus, PostfixParser.Two,
                                          PostfixParser.Minus, PostfixParser.Three])
         == Success(Binary(Sub, Binary(Sub, Literal("1"), Literal("2")), Literal("3")))
  {
    PostfixParser.LeftAssociativeExample();
    var e := Apply2(PostfixParser.Minus,
                    Apply2(PostfixParser.Minus, Atom(PostfixParser.One), Atom(PostfixParser.Two)),
                    Atom(PostfixParser.Three));
    assert Emit(e) == [PostfixParser.One, PostfixParser.Two, PostfixParser.Minus, PostfixParser.Three, PostfixParser.Minus];
    EvalOfEmit(e);
  }

  /** 1^2^3, converted and evaluated, is 1^(2^3): exponentiation groups to the right. */
  lemma PowerGroupsRight()
    ensures ConvertAndEval([PostfixParser.One, PostfixParser.Power, PostfixParser.Two,
                                          PostfixParser.Power, PostfixParser.Three])
         == Success(Binary(Exponent, Literal("1"), Binary(Exponent, Literal("2"), Literal("3"))))
  {
    PostfixParser.RightAssociativeExample();
    var e := Apply2(PostfixParser.Power, Atom(PostfixParser.One),
                    Apply2(PostfixParser.Power, Atom(PostfixParser.Two), Atom(PostfixParser.Three)));
    assert Emit(e) == [PostfixParser.One, PostfixParser.Two, PostfixParser.Three, PostfixParser.Power, PostfixParser.Power];
    EvalOfEmit(e);
  }

  /** 1+2*3, converted and evaluated, is 1+(2*3). */
  lemma ProductBindsTighter()
    ensures ConvertAndEval([PostfixParser.One, PostfixParser.Plus, PostfixParser.Two,
                                          PostfixParser.Times, PostfixParser.Three])
         == Success(Binary(Add, Literal("1"), Binary(Mult, Literal("2"), Literal("3"))))
  {
    PostfixParser.PrecedenceExample();
    var e := Apply2(PostfixParser.Plus, Atom(PostfixParser.One),
                    Apply2(PostfixParser.Times, Atom(PostfixParser.Two), Atom(PostfixParser.Three)));
    assert Emit(e) == [PostfixParser.One, PostfixParser.Two, PostfixParser.Three, PostfixParser.Times, PostfixParser.Plus];
    EvalOfEmit(e);
  }

  // ---------------------------------------------------------------------
  // Binding the variable
  // ---------------------------------------------------------------------

  /** Every VARIABLE token's value set to `x`; all other tokens unchanged. */
  function BindVariable(postfix: seq<Token>, x: Value): (r: seq<Token>)
    ensures |r| == |postfix|
    ensures forall k :: 0 <= k < |r| ==> r[k].ty == postfix[k].ty
    ensures forall k :: 0 <= k < |r| ==> r[k].val == (if postfix[k].ty == Variable then x else postfix[k].val)
  {
    seq(|postfix|, k requires 0 <= k < |postfix| =>
      if postfix[k].ty == Variable then Token(Variable, x) else postfix[k])
  }

  /** Binding again overrides the earlier binding. */
  lemma RebindOverrides(postfix: seq<Token>, x: Value, y: Value)
    ensures BindVariable(BindVariable(postfix, x), y) == BindVariable(postfix, y)
  {
  }

  /** Two token lists with the same types, positionwise. */
  predicate SameShape(p: seq<Token>, q: seq<Token>) {
    |p| == |q| && forall k :: 0 <= k < |p| ==> p[k].ty == q[k].ty
  }

  /**
   * Whether evaluation succeeds, and which error it throws, depends only
   * on the token types and the stack height, never on the values.
   */
  lemma {:induction false} ErrorsIgnoreValues(p: seq<Token>, q: seq<Token>, s1: seq<Value>, s2: seq<Value>)
    requires SameShape(p, q) && |s1| == |s2|
    ensures EvalFrom(p, s1).Success? == EvalFrom(q, s2).Success?
    ensures EvalFrom(p, s1).Failure? ==> EvalFrom(p, s1).error == EvalFrom(q, s2).error
    decreases |p|
  {
    if p != [] {
      var t, u := p[0], q[0];
      assert t.ty == u.ty;
      if IsOperand(t) {
        ErrorsIgnoreValues(p[1..], q[1..], s1 + [t.val], s2 + [u.val]);
      } else if RequiredOperands(t).Success? && |s1| >= RequiredOperands(t).value {
        var n := RequiredOperands(t).value;
        var v1 := EvaluateByToken(t, TopValues(s1, n)).value;
        var v2 := EvaluateByToken(u, TopValues(s2, n)).value;
        ErrorsIgnoreValues(p[1..], q[1..], s1[..|s1| - n] + [v1], s2[..|s2| - n] + [v2]);
      }
    }
  }

  /** Whether an evaluation throws does not depend on the value given to the variable. */
  lemma BindingDoesNotChangeErrors(postfix: seq<Token>, x: Value, y: Value)
    ensures Eval(BindVariable(postfix, x)).Success? == Eval(BindVariable(postfix, y)).Success?
  {
    ErrorsIgnoreValues(BindVariable(postfix, x), BindVariable(postfix, y), [], []);
  }

  // ---------------------------------------------------------------------
  // The imperative machine
  // ---------------------------------------------------------------------

  /** `evaluatePostfix`: one pass with a value stack, popping each operator's operands into an array. */
  method EvaluatePostfix(postfix: seq<Token>) returns (r: Result<Value, Error>)
    ensures r == Eval(postfix)
  {
    var stack: seq<Value> := [];
    var idx := 0;
    while idx < |postfix|
      invariant idx <= |postfix|
      invariant EvalFrom(postfix[idx..], stack) == Eval(postfix)
      decreases |postfix| - idx
    {
      var curToken := postfix[idx];
      assert postfix[idx..][1..] == postfix[idx + 1..];
      if IsOperand(curToken) {
        stack := stack + [curToken.val];
      } else {
        var reqOps := RequiredOperands(curToken);
        if reqOps.Failure? {
          return Failure(reqOps.error);
        }
        var n := reqOps.value;
        if |stack| < n {
          return Failure(NotEnoughOperands);
        }
        ghost var stack0 := stack;
        var opsArray := new Value[n];
        for i := 0 to n
          invariant |stack| == |stack0| - i
          invariant stack == stack0[..|stack0| - i]
          invariant forall k :: 0 <= k < i ==> opsArray[k] == stack0[|stack0| - 1 - k]
        {
          opsArray[i] := stack[|stack| - 1];
          stack := stack[..|stack| - 1];
        }
        assert opsArray[..] == TopValues(stack0, n);
        // every token with an operand count is one evaluateByToken knows,
        // so its "did not know how to evaluate" error cannot arise here
        var value := EvaluateByToken(curToken, opsArray[..]);
        stack := stack + [value.value];
      }
      idx := idx + 1;
    }
    if |stack| != 1 {
      return Failure(TooManyOperands);
    }
    return Success(stack[0]);
  }

  /**
   * `evaluate`: overwrite the value of every VARIABLE token with `x`, in
   * place, then run the machine.
   */
  method Evaluate(postfix: array<Token>, x: Value) returns (r: Result<Value, Error>)
    modifies postfix
    ensures postfix[..] == BindVariable(old(postfix[..]), x)
    ensures r == Eval(BindVariable(old(postfix[..]), x))
  {
    ghost var original := postfix[..];
    for i := 0 to postfix.Length
      invariant forall k :: 0 <= k < i ==> postfix[k] == BindVariable(original, x)[k]
      invariant forall k :: i <= k < postfix.Length ==> postfix[k] == original[k]
    {
      if postfix[i].ty == Variable {
        postfix[i] := Token(Variable, x);
      }
    }
    assert postfix[..] == BindVariable(original, x);
    r := EvaluatePostfix(postfix[..]);
  }
}
