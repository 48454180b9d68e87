/**
 * The shunting-yard conversion of the graphing calculator
 * (`infixToPostfix` and `stringToPostfix` in mejs/Postfix.js).
 *
 * Lists and stacks are sequences; a stack's top is its last element. The
 * conversion is described by functions that follow one input token at a
 * time (`Step`) and the final unwinding of the stack (`Finish`); the
 * imperative method is proved to compute exactly `Shunt(infix, [], [])`,
 * and the properties of the conversion are proved about `Shunt`.
 */
module PostfixParser {
  import opened Wrappers
  import opened PostfixTokens
  import PostfixLexer

  // ---------------------------------------------------------------------
  // Sequences as stacks
  // ---------------------------------------------------------------------

  function Top(s: seq<Token>): Token
    requires |s| > 0
  {
    s[|s| - 1]
  }

  function Pop(s: seq<Token>): seq<Token>
    requires |s| > 0
  {
    s[..|s| - 1]
  }

  /** `s` back to front: the order in which the elements of a stack segment are popped. */
  function Reversed(s: seq<Token>): (r: seq<Token>)
    ensures |r| == |s|
    ensures forall k :: 0 <= k < |s| ==> r[k] == s[|s| - 1 - k]
  {
    if s == [] then [] else Reversed(s[1..]) + [s[0]]
  }

  lemma ReversedAppend(s: seq<Token>, t: Token)
    ensures Reversed(s + [t]) == [t] + Reversed(s)
  {
    var a := Reversed(s + [t]);
    var b := [t] + Reversed(s);
    assert |a| == |b|;
    forall k | 0 <= k < |a|
      ensures a[k] == b[k]
    {
    }
  }

  lemma MultisetReversed(s: seq<Token>)
    ensures multiset(Reversed(s)) == multiset(s)
  {
    if s != [] {
      MultisetReversed(s[1..]);
      assert s == [s[0]] + s[1..];
    }
  }

  // ---------------------------------------------------------------------
  // Filters over token lists
  // ---------------------------------------------------------------------

  /** The elements of `s` that satisfy `keep`, in order. */
  function Filter(s: seq<Token>, keep: Token -> bool): (r: seq<Token>)
    ensures |r| <= |s|
  {
    if s == [] then [] else (if keep(s[0]) then [s[0]] else []) + Filter(s[1..], keep)
  }

  lemma {:induction false} FilterConcat(a: seq<Token>, b: seq<Token>, keep: Token -> bool)
    ensures Filter(a + b, keep) == Filter(a, keep) + Filter(b, keep)
  {
    if a == [] {
      assert a + b == b;
    } else {
      var head := if keep(a[0]) then [a[0]] else [];
      assert (a + b)[1..] == a[1..] + b;
      assert Filter(a + b, keep) == head + Filter(a[1..] + b, keep);
      FilterConcat(a[1..], b, keep);
      assert Filter(a, keep) == head + Filter(a[1..], keep);
    }
  }

  lemma {:induction false} FilterNone(s: seq<Token>, keep: Token -> bool)
    requires forall k :: 0 <= k < |s| ==> !keep(s[k])
    ensures Filter(s, keep) == []
  {
    if s != [] {
      FilterNone(s[1..], keep);
    }
  }

  lemma {:induction false} FilterAll(s: seq<Token>, keep: Token -> bool)
    requires forall k :: 0 <= k < |s| ==> keep(s[k])
    ensures Filter(s, keep) == s
  {
    if s != [] {
      FilterAll(s[1..], keep);
      assert s == [s[0]] + s[1..];
    }
  }

  lemma {:induction false} FilterReversedMultiset(s: seq<Token>, keep: Token -> bool)
    ensures multiset(Filter(Reversed(s), keep)) == multiset(Filter(s, keep))
  {
    if s != [] {
      FilterReversedMultiset(s[1..], keep);
      FilterConcat(Reversed(s[1..]), [s[0]], keep);
      FilterConcat([s[0]], s[1..], keep);
      assert s == [s[0]] + s[1..];
    }
  }

  predicate IsLeftBrace(t: Token) { t.ty == BraceLeft }
  predicate IsRightBrace(t: Token) { t.ty == BraceRight }
  predicate NotBrace(t: Token) { !IsBrace(t) }

  /** The operand tokens of `s`, in order. */
  function Operands(s: seq<Token>): seq<Token> { Filter(s, IsOperand) }

  /** The tokens of `s` other than braces, in order. */
  function NonBraces(s: seq<Token>): seq<Token> { Filter(s, NotBrace) }

  /** The number of left braces in `s`. */
  function LeftCount(s: seq<Token>): nat { |Filter(s, IsLeftBrace)| }

  predicate NoBraces(s: seq<Token>) {
    forall k :: 0 <= k < |s| ==> !IsBrace(s[k])
  }

  /** What the conversion ever leaves on its stack: functions, operators and left braces. */
  predicate StackOk(stack: seq<Token>) {
    forall k :: 0 <= k < |stack| ==> !IsOperand(stack[k]) && !IsRightBrace(stack[k])
  }

  /**
   * Parenthesis matching: reading `infix` with `depth` braces already open,
   * no right brace ever closes more than is open, and none is left open.
   */
  predicate BalancedFrom(infix: seq<Token>, depth: nat) {
    if infix == [] then depth == 0
    else if IsLeftBrace(infix[0]) then BalancedFrom(infix[1..], depth + 1)
    else if IsRightBrace(infix[0]) then depth > 0 && BalancedFrom(infix[1..], depth - 1)
    else BalancedFrom(infix[1..], depth)
  }

  predicate Balanced(infix: seq<Token>) { BalancedFrom(infix, 0) }

  // ---------------------------------------------------------------------
  // One token of the conversion
  // ---------------------------------------------------------------------

  /**
   * Whether the operator `cur` pops `top` off the stack before it is pushed:
   * `top` must be an operator, and `cur` must not bind tighter than it
   * (left associative) or must bind strictly looser (right associative).
   */
  predicate PopsFor(cur: Token, top: Token) {
    && IsOperator(top)
    && ((IsLeftAssociative(cur) && !HigherPrecedenceThan(cur, top))
        || (IsRightAssociative(cur) && LowerPrecedenceThan(cur, top)))
  }

  /** The popping rule stated with the precedence numbers of the TYPE table. */
  lemma PopsForPrecedence(cur: Token, top: Token)
    requires IsOperator(cur)
    ensures IsLeftAssociative(cur) != IsRightAssociative(cur)
    ensures IsLeftAssociative(cur) ==> (PopsFor(cur, top) <==> IsOperator(top) && Prec(top) >= Prec(cur))
    ensures IsRightAssociative(cur) ==> (PopsFor(cur, top) <==> IsOperator(top) && Prec(top) > Prec(cur))
    ensures !IsOperator(top) ==> !PopsFor(cur, top)
  {
  }

  /**
   * The popping loop run when the operator `cur` arrives: operators are
   * moved from the stack to the output while `PopsFor` holds for the top.
   * Yields the remaining stack and the extended output.
   */
  function PopOperators(cur: Token, stack: seq<Token>, out: seq<Token>): (r: (seq<Token>, seq<Token>))
    ensures |r.0| <= |stack| && r.0 == stack[..|r.0|]
    ensures |out| <= |r.1| && r.1[..|out|] == out
    ensures forall k :: |out| <= k < |r.1| ==> PopsFor(cur, r.1[k])
    ensures |r.0| == 0 || !PopsFor(cur, Top(r.0))
    decreases |stack|
  {
    if |stack| > 0 && PopsFor(cur, Top(stack)) then
      PopOperators(cur, Pop(stack), out + [Top(stack)])
    else
      (stack, out)
  }

  /** The operators popped are exactly the top of the stack, in the order they are popped. */
  lemma {:induction false} PopOperatorsTakesTop(cur: Token, stack: seq<Token>, out: seq<Token>)
    ensures var (rest, out') := PopOperators(cur, stack, out);
      out'[|out|..] == Reversed(stack[|rest|..])
    decreases |stack|
  {
    if |stack| > 0 && PopsFor(cur, Top(stack)) {
      var (rest, out') := PopOperators(cur, Pop(stack), out + [Top(stack)]);
      PopOperatorsTakesTop(cur, Pop(stack), out + [Top(stack)]);
      assert out'[|out|..] == [Top(stack)] + out'[|out| + 1..];
      assert stack[|rest|..] == Pop(stack)[|rest|..] + [Top(stack)];
      ReversedAppend(Pop(stack)[|rest|..], Top(stack));
    }
  }

  /**
   * The loop run at a right brace: move tokens to the output up to the
   * nearest left brace and drop that brace; throws when the stack runs out
   * first. Yields the stack below the brace and the extended output.
   */
  function PopToBrace(stack: seq<Token>, out: seq<Token>): (r: Result<(seq<Token>, seq<Token>), Error>)
    ensures r.Success? <==> LeftCount(stack) > 0
    ensures r.Failure? ==> r.error == MismatchedParentheses
    ensures r.Success? ==>
      var (rest, out') := r.value;
      && |rest| < |stack| && rest == stack[..|rest|] && IsLeftBrace(stack[|rest|])
      && |out| <= |out'| && out'[..|out|] == out
      && forall k :: |out| <= k < |out'| ==> !IsLeftBrace(out'[k])
    decreases |stack|
  {
    if |stack| == 0 then
      Failure(MismatchedParentheses)
    else
      FilterConcat(Pop(stack), [Top(stack)], IsLeftBrace);
      assert stack == Pop(stack) + [Top(stack)];
      if IsLeftBrace(Top(stack)) then
        Success((Pop(stack), out))
      else
        PopToBrace(Pop(stack), out + [Top(stack)])
  }

  /**
   * The left brace found is the nearest one, and the tokens moved are
   * exactly those above it, in the order they are popped.
   */
  lemma {:induction false} PopToBraceTakesTop(stack: seq<Token>, out: seq<Token>)
    requires LeftCount(stack) > 0
    ensures var (rest, out') := PopToBrace(stack, out).value;
      && (forall k :: |rest| < k < |stack| ==> !IsLeftBrace(stack[k]))
      && out'[|out|..] == Reversed(stack[|rest| + 1..])
    decreases |stack|
  {
    if IsLeftBrace(Top(stack)) {
      assert stack[|Pop(stack)| + 1..] == [];
    } else {
      assert stack == Pop(stack) + [Top(stack)];
      FilterConcat(Pop(stack), [Top(stack)], IsLeftBrace);
      PopToBraceTakesTop(Pop(stack), out + [Top(stack)]);
      var (rest, out') := PopToBrace(Pop(stack), out + [Top(stack)]).value;
      PoppedBelowTop(stack, out, rest, out');
    }
  }

  /** A token moved off the top before the rest of the segment is popped leads the popped segment. */
  lemma PoppedBelowTop(stack: seq<Token>, out: seq<Token>, rest: seq<Token>, out': seq<Token>)
    requires |stack| > 0 && !IsLeftBrace(Top(stack))
    requires |rest| < |Pop(stack)| && |out| < |out'| && out'[..|out| + 1] == out + [Top(stack)]
    requires forall k :: |rest| < k < |Pop(stack)| ==> !IsLeftBrace(Pop(stack)[k])
    requires out'[|out| + 1..] == Reversed(Pop(stack)[|rest| + 1..])
    ensures forall k :: |rest| < k < |stack| ==> !IsLeftBrace(stack[k])
    ensures out'[|out|..] == Reversed(stack[|rest| + 1..])
  {
    assert out'[|out|] == Top(stack);
    assert out'[|out|..] == [Top(stack)] + out'[|out| + 1..];
    assert stack[|rest| + 1..] == Pop(stack)[|rest| + 1..] + [Top(stack)];
    ReversedAppend(Pop(stack)[|rest| + 1..], Top(stack));
  }

  /**
   * One iteration of the conversion loop: the new stack and output after
   * reading `t`, or the error it throws.
   */
  function Step(t: Token, stack: seq<Token>, out: seq<Token>): Result<(seq<Token>, seq<Token>), Error> {
    if IsOperand(t) then
      Success((stack, out + [t]))
    else if IsFunction(t) then
      Success((stack + [t], out))
    else if IsOperator(t) then
      var (rest, out') := PopOperators(t, stack, out);
      Success((rest + [t], out'))
    else if IsLeftBrace(t) then
      Success((stack + [t], out))
    else
      match PopToBrace(stack, out)
      case Failure(e) => Failure(e)
      case Success((rest, out')) =>
        if |rest| > 0 && IsFunction(Top(rest)) then
          Success((Pop(rest), out' + [Top(rest)]))
        else
          Success((rest, out'))
  }

  /** The end of the input: pop the whole stack to the output; a left brace still there throws. */
  function Finish(stack: seq<Token>, out: seq<Token>): (r: Result<seq<Token>, Error>)
    ensures r.Success? <==> LeftCount(stack) == 0
    ensures r.Failure? ==> r.error == MismatchedParentheses
    ensures r.Success? ==> r.value == out + Reversed(stack)
    decreases |stack|
  {
    if |stack| == 0 then
      assert out + Reversed(stack) == out;
      Success(out)
    else
      FilterConcat(Pop(stack), [Top(stack)], IsLeftBrace);
      assert stack == Pop(stack) + [Top(stack)];
      if IsLeftBrace(Top(stack)) then
        Failure(MismatchedParentheses)
      else
        ReversedAppend(Pop(stack), Top(stack));
        Finish(Pop(stack), out + [Top(stack)])
  }

  /** The conversion of `infix`, continuing from a given stack and output. */
  function Shunt(infix: seq<Token>, stack: seq<Token>, out: seq<Token>): Result<seq<Token>, Error>
    decreases |infix|
  {
    if infix == [] then Finish(stack, out)
    else
      match Step(infix[0], stack, out)
      case Failure(e) => Failure(e)
      case Success((stack', out')) => Shunt(infix[1..], stack', out')
  }

  /** `infixToPostfix` as a function of the whole token list. */
  function ToPostfix(infix: seq<Token>): Result<seq<Token>, Error> {
    Shunt(infix, [], [])
  }

  // ---------------------------------------------------------------------
  // What one step preserves
  // ---------------------------------------------------------------------

  /** The change in the number of open braces that reading `t` makes. */
  function DepthChange(t: Token): int {
    if IsLeftBrace(t) then 1 else if IsRightBrace(t) then -1 else 0
  }

  /**
   * Going from (`stack`, `out`) to (`stack'`, `out'`) keeps the stack free
   * of operands and right braces, adds no operand and no brace to the
   * output, and loses or duplicates no token other than a brace.
   */
  predicate Conserves(stack: seq<Token>, out: seq<Token>, stack': seq<Token>, out': seq<Token>) {
    && StackOk(stack')
    && Operands(out') == Operands(out)
    && (NoBraces(out) ==> NoBraces(out'))
    && multiset(NonBraces(out')) + multiset(NonBraces(stack'))
       == multiset(NonBraces(out)) + multiset(NonBraces(stack))
  }

  lemma {:induction false} FilterEmpty(s: seq<Token>, keep: Token -> bool)
    requires Filter(s, keep) == []
    ensures forall k :: 0 <= k < |s| ==> !keep(s[k])
  {
    if s != [] {
      FilterEmpty(s[1..], keep);
      forall k | 0 <= k < |s|
        ensures !keep(s[k])
      {
        if k > 0 {
          assert s[k] == s[1..][k - 1];
        }
      }
    }
  }

  /** Moving the top of the stack, which is not a left brace, to the output. */
  lemma MoveTop(stack: seq<Token>, out: seq<Token>)
    requires StackOk(stack) && |stack| > 0 && !IsLeftBrace(Top(stack))
    ensures Conserves(stack, out, Pop(stack), out + [Top(stack)])
    ensures LeftCount(Pop(stack)) == LeftCount(stack)
  {
    var t := Top(stack);
    assert stack == Pop(stack) + [t];
    FilterConcat(Pop(stack), [t], NotBrace);
    FilterConcat(Pop(stack), [t], IsLeftBrace);
    FilterConcat(out, [t], NotBrace);
    FilterConcat(out, [t], IsOperand);
  }

  /** Dropping a left brace from the top of the stack. */
  lemma DropBrace(stack: seq<Token>, out: seq<Token>)
    requires StackOk(stack) && |stack| > 0 && IsLeftBrace(Top(stack))
    ensures Conserves(stack, out, Pop(stack), out)
    ensures LeftCount(Pop(stack)) == LeftCount(stack) - 1
  {
    var t := Top(stack);
    assert stack == Pop(stack) + [t];
    FilterConcat(Pop(stack), [t], NotBrace);
    FilterConcat(Pop(stack), [t], IsLeftBrace);
  }

  /** Pushing a function, operator or left brace read from the input. */
  lemma PushToken(t: Token, stack: seq<Token>, out: seq<Token>)
    requires StackOk(stack) && !IsOperand(t) && !IsRightBrace(t)
    ensures StackOk(stack + [t])
    ensures LeftCount(stack + [t]) == LeftCount(stack) + DepthChange(t)
    ensures multiset(NonBraces(stack + [t])) == multiset(NonBraces(stack)) + multiset(NonBraces([t]))
  {
    FilterConcat(stack, [t], NotBrace);
    FilterConcat(stack, [t], IsLeftBrace);
  }

  lemma {:induction false} PopOperatorsConserves(cur: Token, stack: seq<Token>, out: seq<Token>)
    requires StackOk(stack)
    ensures var (rest, out') := PopOperators(cur, stack, out);
      Conserves(stack, out, rest, out') && LeftCount(rest) == LeftCount(stack)
    decreases |stack|
  {
    if |stack| > 0 && PopsFor(cur, Top(stack)) {
      MoveTop(stack, out);
      PopOperatorsConserves(cur, Pop(stack), out + [Top(stack)]);
    }
  }

  lemma {:induction false} PopToBraceConserves(stack: seq<Token>, out: seq<Token>)
    requires StackOk(stack) && LeftCount(stack) > 0
    ensures var (rest, out') := PopToBrace(stack, out).value;
      Conserves(stack, out, rest, out') && LeftCount(rest) == LeftCount(stack) - 1
    decreases |stack|
  {
    if IsLeftBrace(Top(stack)) {
      DropBrace(stack, out);
    } else {
      MoveTop(stack, out);
      PopToBraceConserves(Pop(stack), out + [Top(stack)]);
    }
  }

  lemma {:induction false} FinishConserves(stack: seq<Token>, out: seq<Token>)
    requires StackOk(stack) && LeftCount(stack) == 0
    ensures Conserves(stack, out, [], Finish(stack, out).value)
    decreases |stack|
  {
    if |stack| == 0 {
      assert NonBraces(stack) == [];
    } else {
      assert stack == Pop(stack) + [Top(stack)];
      FilterConcat(Pop(stack), [Top(stack)], IsLeftBrace);
      MoveTop(stack, out);
      FinishConserves(Pop(stack), out + [Top(stack)]);
    }
  }

  /**
   * Everything a step from (`stack`, `out`) to (`stack'`, `out'`) on input
   * token `t` keeps: the stack holds no operands or right braces, its open
   * braces follow the input's nesting depth, operands reach the output in
   * input order, no brace reaches the output, and no token other than a
   * brace is lost or duplicated.
   */
  predicate StepKeeps(t: Token, stack: seq<Token>, out: seq<Token>, stack': seq<Token>, out': seq<Token>) {
    && StackOk(stack')
    && LeftCount(stack') == LeftCount(stack) + DepthChange(t)
    && Operands(out') == Operands(out) + Operands([t])
    && (NoBraces(out) ==> NoBraces(out'))
    && multiset(NonBraces(out')) + multiset(NonBraces(stack'))
       == multiset(NonBraces(out)) + multiset(NonBraces(stack)) + multiset(NonBraces([t]))
  }

  lemma OperandStep(t: Token, stack: seq<Token>, out: seq<Token>)
    requires StackOk(stack) && IsOperand(t)
    ensures StepKeeps(t, stack, out, stack, out + [t])
  {
    FilterConcat(out, [t], IsOperand);
    FilterConcat(out, [t], NotBrace);
  }

  lemma PushStep(t: Token, stack: seq<Token>, out: seq<Token>)
    requires StackOk(stack) && (IsFunction(t) || IsLeftBrace(t))
    ensures StepKeeps(t, stack, out, stack + [t], out)
  {
    PushToken(t, stack, out);
    assert Operands([t]) == [];
  }

  /** Pushing an operator after a popping phase that conserved everything. */
  lemma PushAfterPopping(t: Token, stack: seq<Token>, out: seq<Token>, rest: seq<Token>, out': seq<Token>)
    requires Conserves(stack, out, rest, out') && LeftCount(rest) == LeftCount(stack)
    requires IsOperator(t)
    ensures StepKeeps(t, stack, out, rest + [t], out')
  {
    PushToken(t, rest, out');
    assert Operands([t]) == [];
  }

  lemma OperatorStep(t: Token, stack: seq<Token>, out: seq<Token>)
    requires StackOk(stack) && IsOperator(t)
    ensures StepKeeps(t, stack, out, PopOperators(t, stack, out).0 + [t], PopOperators(t, stack, out).1)
  {
    PopOperatorsConserves(t, stack, out);
    PushAfterPopping(t, stack, out, PopOperators(t, stack, out).0, PopOperators(t, stack, out).1);
  }

  /** A step that conserves everything and changes the depth as its token does keeps `StepKeeps`. */
  lemma ConservingStep(t: Token, stack: seq<Token>, out: seq<Token>, stack': seq<Token>, out': seq<Token>)
    requires Conserves(stack, out, stack', out') && LeftCount(stack') == LeftCount(stack) + DepthChange(t)
    requires Operands([t]) == [] && NonBraces([t]) == []
    ensures StepKeeps(t, stack, out, stack', out')
  {
  }

  /** A conserving move after a step keeps `StepKeeps` for the two together. */
  lemma StepThenConserve(t: Token, stack: seq<Token>, out: seq<Token>, s1: seq<Token>, o1: seq<Token>,
                         s2: seq<Token>, o2: seq<Token>)
    requires StepKeeps(t, stack, out, s1, o1)
    requires Conserves(s1, o1, s2, o2) && LeftCount(s2) == LeftCount(s1)
    ensures StepKeeps(t, stack, out, s2, o2)
  {
  }

  lemma RightBraceStep(t: Token, stack: seq<Token>, out: seq<Token>)
    requires StackOk(stack) && IsRightBrace(t) && LeftCount(stack) > 0
    ensures var (rest, out') := PopToBrace(stack, out).value;
      && StepKeeps(t, stack, out, rest, out')
      && (|rest| > 0 && IsFunction(Top(rest)) ==> StepKeeps(t, stack, out, Pop(rest), out' + [Top(rest)]))
  {
    assert Operands([t]) == [] && NonBraces([t]) == [];
    PopToBraceConserves(stack, out);
    var (rest, out') := PopToBrace(stack, out).value;
    ConservingStep(t, stack, out, rest, out');
    if |rest| > 0 && IsFunction(Top(rest)) {
      MoveTop(rest, out');
      StepThenConserve(t, stack, out, rest, out', Pop(rest), out' + [Top(rest)]);
    }
  }

  /** Each step keeps `StepKeeps`; the only error is a right brace with no left brace on the stack. */
  lemma StepFacts(t: Token, stack: seq<Token>, out: seq<Token>)
    requires StackOk(stack)
    ensures Step(t, stack, out).Success? <==> !IsRightBrace(t) || LeftCount(stack) > 0
    ensures Step(t, stack, out).Failure? ==> Step(t, stack, out).error == MismatchedParentheses
    ensures Step(t, stack, out).Success? ==>
      StepKeeps(t, stack, out, Step(t, stack, out).value.0, Step(t, stack, out).value.1)
  {
    if IsOperand(t) {
      OperandStep(t, stack, out);
    } else if IsFunction(t) || IsLeftBrace(t) {
      PushStep(t, stack, out);
    } else if IsOperator(t) {
      OperatorStep(t, stack, out);
    } else if LeftCount(stack) > 0 {
      RightBraceStep(t, stack, out);
    }
  }

  // ---------------------------------------------------------------------
  // Properties of the whole conversion
  // ---------------------------------------------------------------------

  /**
   * From any reachable stack, the conversion fails exactly when the rest of
   * the input does not close the braces open on the stack, and always with
   * "Mismatched parentheses".
   */
  lemma {:induction false} ShuntBalanced(infix: seq<Token>, stack: seq<Token>, out: seq<Token>)
    requires StackOk(stack)
    ensures Shunt(infix, stack, out).Success? <==> BalancedFrom(infix, LeftCount(stack))
    ensures Shunt(infix, stack, out).Failure? ==> Shunt(infix, stack, out).error == MismatchedParentheses
    decreases |infix|
  {
    if infix != [] {
      var t := infix[0];
      StepFacts(t, stack, out);
      if Step(t, stack, out).Success? {
        var (stack', out') := Step(t, stack, out).value;
        ShuntBalanced(infix[1..], stack', out');
      }
    }
  }

  /**
   * `r`, produced from output `out`, stack `stack` and remaining input
   * `infix`, holds the operands of `out` then those of `infix` in order,
   * no brace unless `out` has one, and each non-brace token of `out`,
   * `stack` and `infix` exactly once.
   */
  predicate Emits(r: seq<Token>, out: seq<Token>, stack: seq<Token>, infix: seq<Token>) {
    && Operands(r) == Operands(out) + Operands(infix)
    && (NoBraces(out) ==> NoBraces(r))
    && multiset(NonBraces(r)) == multiset(NonBraces(out)) + multiset(NonBraces(stack)) + multiset(NonBraces(infix))
  }

  lemma OperandsAfterStep(t: Token, rest: seq<Token>, out: seq<Token>, out': seq<Token>, r: seq<Token>)
    requires Operands(out') == Operands(out) + Operands([t])
    requires Operands(r) == Operands(out') + Operands(rest)
    ensures Operands(r) == Operands(out) + Operands([t] + rest)
  {
    FilterConcat([t], rest, IsOperand);
    var a, b, c := Operands(out), Operands([t]), Operands(rest);
    assert (a + b) + c == a + (b + c);
  }

  lemma NonBracesAfterStep(t: Token, rest: seq<Token>, stack: seq<Token>, out: seq<Token>,
                           stack': seq<Token>, out': seq<Token>, r: seq<Token>)
    requires multiset(NonBraces(out')) + multiset(NonBraces(stack'))
             == multiset(NonBraces(out)) + multiset(NonBraces(stack)) + multiset(NonBraces([t]))
    requires multiset(NonBraces(r)) == multiset(NonBraces(out')) + multiset(NonBraces(stack')) + multiset(NonBraces(rest))
    ensures multiset(NonBraces(r)) == multiset(NonBraces(out)) + multiset(NonBraces(stack)) + multiset(NonBraces([t] + rest))
  {
    FilterConcat([t], rest, NotBrace);
  }

  lemma EmitsAfterStep(t: Token, rest: seq<Token>, stack: seq<Token>, out: seq<Token>,
                       stack': seq<Token>, out': seq<Token>, r: seq<Token>)
    requires StepKeeps(t, stack, out, stack', out')
    requires Emits(r, out', stack', rest)
    ensures Emits(r, out, stack, [t] + rest)
  {
    OperandsAfterStep(t, rest, out, out', r);
    NonBracesAfterStep(t, rest, stack, out, stack', out', r);
  }

  /**
   * From any reachable stack, a successful conversion keeps the operands in
   * order, emits no brace, and emits every other token exactly once.
   */
  lemma {:induction false} ShuntKeeps(infix: seq<Token>, stack: seq<Token>, out: seq<Token>)
    requires StackOk(stack) && Shunt(infix, stack, out).Success?
    ensures Emits(Shunt(infix, stack, out).value, out, stack, infix)
    decreases |infix|
  {
    if infix == [] {
      FinishConserves(stack, out);
      assert NonBraces([]) == [] && Operands([]) == [];
    } else {
      var t, rest := infix[0], infix[1..];
      assert infix == [t] + rest;
      StepFacts(t, stack, out);
      var (stack', out') := Step(t, stack, out).value;
      assert Shunt(infix, stack, out) == Shunt(rest, stack', out');
      ShuntKeeps(rest, stack', out');
      EmitsAfterStep(t, rest, stack, out, stack', out', Shunt(rest, stack', out').value);
    }
  }

  /** The conversion throws exactly when the parentheses of the input do not match, and then with "Mismatched parentheses". */
  lemma ToPostfixFailsIffUnbalanced(infix: seq<Token>)
    ensures ToPostfix(infix).Success? <==> Balanced(infix)
    ensures ToPostfix(infix).Failure? ==> ToPostfix(infix).error == MismatchedParentheses
  {
    ShuntBalanced(infix, [], []);
  }

  /** Operand tokens leave the conversion in the order they entered it. */
  lemma ToPostfixKeepsOperandOrder(infix: seq<Token>)
    requires ToPostfix(infix).Success?
    ensures Operands(ToPostfix(infix).value) == Operands(infix)
  {
    ShuntKeeps(infix, [], []);
  }

  /** The output holds no braces, and it is a permutation of the input's tokens other than braces. */
  lemma ToPostfixIsBraceFreePermutation(infix: seq<Token>)
    requires ToPostfix(infix).Success?
    ensures NoBraces(ToPostfix(infix).value)
    ensures multiset(ToPostfix(infix).value) == multiset(NonBraces(infix))
  {
    ShuntKeeps(infix, [], []);
    var r := ToPostfix(infix).value;
    FilterAll(r, NotBrace);
  }

  // ---------------------------------------------------------------------
  // Bracketed sub-expressions
  // ---------------------------------------------------------------------

  /** The stack and output after reading all of `infix`, before the stack is unwound. */
  function Run(infix: seq<Token>, stack: seq<Token>, out: seq<Token>): Result<(seq<Token>, seq<Token>), Error>
    decreases |infix|
  {
    if infix == [] then Success((stack, out))
    else
      match Step(infix[0], stack, out)
      case Failure(e) => Failure(e)
      case Success((stack', out')) => Run(infix[1..], stack', out')
  }

  /** A successful conversion reads the whole input and then unwinds the stack. */
  lemma {:induction false} ShuntIsRunThenFinish(infix: seq<Token>, stack: seq<Token>, out: seq<Token>)
    requires Shunt(infix, stack, out).Success?
    ensures Run(infix, stack, out).Success?
    ensures Shunt(infix, stack, out) == Finish(Run(infix, stack, out).value.0, Run(infix, stack, out).value.1)
    decreases |infix|
  {
    if infix != [] {
      var (stack', out') := Step(infix[0], stack, out).value;
      ShuntIsRunThenFinish(infix[1..], stack', out');
    }
  }

  /** Reading `a` and then `b` continues from the state `a` leaves. */
  lemma {:induction false} ShuntAfterRun(a: seq<Token>, b: seq<Token>, stack: seq<Token>, out: seq<Token>)
    requires Run(a, stack, out).Success?
    ensures Shunt(a + b, stack, out) == Shunt(b, Run(a, stack, out).value.0, Run(a, stack, out).value.1)
    decreases |a|
  {
    if a == [] {
      assert a + b == b;
    } else {
      assert (a + b)[0] == a[0] && (a + b)[1..] == a[1..] + b;
      var (stack', out') := Step(a[0], stack, out).value;
      ShuntAfterRun(a[1..], b, stack', out');
    }
  }

  /** The operators popped above a left brace are the same whatever lies below the brace. */
  lemma {:induction false} PopOperatorsOverBrace(cur: Token, base: seq<Token>, stack: seq<Token>, out: seq<Token>)
    requires |base| > 0 && IsLeftBrace(Top(base))
    ensures PopOperators(cur, base + stack, out)
      == (base + PopOperators(cur, stack, out).0, PopOperators(cur, stack, out).1)
    decreases |stack|
  {
    if |stack| == 0 {
      assert base + stack == base;
    } else {
      assert Top(base + stack) == Top(stack) && Pop(base + stack) == base + Pop(stack);
      if PopsFor(cur, Top(stack)) {
        PopOperatorsOverBrace(cur, base, Pop(stack), out + [Top(stack)]);
      }
    }
  }

  /** A right brace that finds its left brace above `base` never looks below it. */
  lemma {:induction false} PopToBraceOverBrace(base: seq<Token>, stack: seq<Token>, out: seq<Token>)
    requires LeftCount(stack) > 0
    ensures PopToBrace(base + stack, out)
      == Success((base + PopToBrace(stack, out).value.0, PopToBrace(stack, out).value.1))
    decreases |stack|
  {
    assert Top(base + stack) == Top(stack) && Pop(base + stack) == base + Pop(stack);
    if !IsLeftBrace(Top(stack)) {
      assert stack == Pop(stack) + [Top(stack)];
      FilterConcat(Pop(stack), [Top(stack)], IsLeftBrace);
      PopToBraceOverBrace(base, Pop(stack), out + [Top(stack)]);
    }
  }

  /** One step above a left brace behaves as it does on the stack above the brace alone. */
  lemma StepOverBrace(t: Token, base: seq<Token>, stack: seq<Token>, out: seq<Token>)
    requires |base| > 0 && IsLeftBrace(Top(base))
    requires Step(t, stack, out).Success?
    ensures Step(t, base + stack, out)
      == Success((base + Step(t, stack, out).value.0, Step(t, stack, out).value.1))
  {
    if IsOperand(t) {
    } else if IsFunction(t) || IsLeftBrace(t) {
      assert (base + stack) + [t] == base + (stack + [t]);
    } else if IsOperator(t) {
      PopOperatorsOverBrace(t, base, stack, out);
      assert (base + PopOperators(t, stack, out).0) + [t] == base + (PopOperators(t, stack, out).0 + [t]);
    } else {
      PopToBraceOverBrace(base, stack, out);
      var (rest, out') := PopToBrace(stack, out).value;
      if |rest| > 0 {
        assert Top(base + rest) == Top(rest) && Pop(base + rest) == base + Pop(rest);
      } else {
        assert base + rest == base;
      }
    }
  }

  /** Reading a token list above a left brace behaves as reading it above the brace alone. */
  lemma {:induction false} RunOverBrace(infix: seq<Token>, base: seq<Token>, stack: seq<Token>, out: seq<Token>)
    requires |base| > 0 && IsLeftBrace(Top(base))
    requires Run(infix, stack, out).Success?
    ensures Run(infix, base + stack, out)
      == Success((base + Run(infix, stack, out).value.0, Run(infix, stack, out).value.1))
    decreases |infix|
  {
    if infix != [] {
      StepOverBrace(infix[0], base, stack, out);
      var (stack', out') := Step(infix[0], stack, out).value;
      RunOverBrace(infix[1..], base, stack', out');
    }
  }

  /** A right brace over a segment without left braces pops the whole segment and the brace below it. */
  lemma PopToBraceWhole(base: seq<Token>, stack: seq<Token>, out: seq<Token>)
    requires |base| > 0 && IsLeftBrace(Top(base))
    requires forall k :: 0 <= k < |stack| ==> !IsLeftBrace(stack[k])
    ensures PopToBrace(base + stack, out) == Success((Pop(base), out + Reversed(stack)))
  {
    var all := base + stack;
    assert base == Pop(base) + [Top(base)];
    FilterConcat(Pop(base), [Top(base)], IsLeftBrace);
    FilterConcat(base, stack, IsLeftBrace);
    PopToBraceTakesTop(all, out);
    var (rest, out') := PopToBrace(all, out).value;
    assert all[|base| - 1] == Top(base);
    assert |rest| == |base| - 1;
    assert rest == Pop(base);
    assert all[|rest| + 1..] == stack;
    assert out' == out'[..|out|] + out'[|out|..];
  }

  /**
   * The state a balanced argument leaves, read above the left brace at the
   * top of `base`, and the output a right brace then produces: the
   * argument's own conversion, with `base` cut just below its brace.
   */
  lemma BracketedArgument(base: seq<Token>, arg: seq<Token>, close: Token)
    requires |base| > 0 && IsLeftBrace(Top(base)) && IsRightBrace(close) && Balanced(arg)
    ensures ToPostfix(arg).Success? && Run(arg, [], []).Success?
    ensures PopToBrace(base + Run(arg, [], []).value.0, Run(arg, [], []).value.1)
      == Success((Pop(base), ToPostfix(arg).value))
    ensures Shunt(arg + [close], base, []) == Shunt([close], base + Run(arg, [], []).value.0, Run(arg, [], []).value.1)
  {
    ToPostfixFailsIffUnbalanced(arg);
    ShuntIsRunThenFinish(arg, [], []);
    var (stack, out) := Run(arg, [], []).value;
    FilterEmpty(stack, IsLeftBrace);
    PopToBraceWhole(base, stack, out);
    RunOverBrace(arg, base, [], []);
    assert base + [] == base;
    ShuntAfterRun(arg, [close], base, []);
  }

  /** A last token that leaves the stack empty ends the conversion with the output it leaves. */
  lemma ShuntLast(t: Token, stack: seq<Token>, out: seq<Token>, out': seq<Token>)
    requires Step(t, stack, out) == Success(([], out'))
    ensures Shunt([t], stack, out) == Success(out')
  {
    assert [t][1..] == [];
    assert Finish([], out') == Success(out');
  }

  /**
   * The last right brace of the input, once it has found its left brace
   * with nothing or a single function below it, emits what it popped and
   * then that function.
   */
  lemma CloseArgument(close: Token, stack: seq<Token>, out: seq<Token>, below: seq<Token>, v: seq<Token>)
    requires IsRightBrace(close) && PopToBrace(stack, out) == Success((below, v))
    requires below == [] || (|below| == 1 && IsFunction(below[0]))
    ensures Shunt([close], stack, out) == Success(v + below)
  {
    assert !IsOperand(close) && !IsFunction(close) && !IsOperator(close) && !IsLeftBrace(close);
    if below == [] {
      assert v + below == v;
    } else {
      assert Pop(below) == [] && [Top(below)] == below;
    }
    assert Step(close, stack, out) == Success(([], v + below));
    ShuntLast(close, stack, out, v + below);
  }

  /** Braces around a balanced sub-expression add nothing to its conversion. */
  lemma {:induction false} BracesAddNothing(open: Token, arg: seq<Token>, close: Token)
    requires IsLeftBrace(open) && IsRightBrace(close) && Balanced(arg)
    ensures ToPostfix(arg).Success?
    ensures ToPostfix([open] + arg + [close]) == ToPostfix(arg)
  {
    BracketedArgument([open], arg, close);
    var (stack, out) := Run(arg, [], []).value;
    assert [open] + arg + [close] == [open] + (arg + [close]);
    ShuntUnfold(open, arg + [close], [], [], [open], []);
    CloseArgument(close, [open] + stack, out, [], ToPostfix(arg).value);
    assert ToPostfix(arg).value + [] == ToPostfix(arg).value;
  }

  /**
   * A function applied to a balanced argument is output right after the
   * argument's conversion: the right brace closing the argument emits it.
   */
  lemma {:induction false} FunctionAppliedAfterArgument(f: Token, open: Token, arg: seq<Token>, close: Token)
    requires IsFunction(f) && IsLeftBrace(open) && IsRightBrace(close) && Balanced(arg)
    ensures ToPostfix(arg).Success?
    ensures ToPostfix([f, open] + arg + [close]) == Success(ToPostfix(arg).value + [f])
  {
    BracketedArgument([f, open], arg, close);
    var (stack, out) := Run(arg, [], []).value;
    assert [f, open] + arg + [close] == [f, open] + (arg + [close]);
    FunctionCallStart(f, open, arg + [close]);
    assert Pop([f, open]) == [f];
    CloseArgument(close, [f, open] + stack, out, [f], ToPostfix(arg).value);
  }

  /** A function name and the left brace after it are both stacked. */
  lemma FunctionCallStart(f: Token, open: Token, tail: seq<Token>)
    requires IsFunction(f) && IsLeftBrace(open)
    ensures ToPostfix([f, open] + tail) == Shunt(tail, [f, open], [])
  {
    assert [f, open] + tail == [f] + ([open] + tail);
    ShuntUnfold(f, [open] + tail, [], [], [f], []);
    ShuntUnfold(open, tail, [f], [], [f, open], []);
  }

  // ---------------------------------------------------------------------
  // Worked conversions
  // ---------------------------------------------------------------------

  const One := Token(Number, Literal("1"))
  const Two := Token(Number, Literal("2"))
  const Three := Token(Number, Literal("3"))
  const X := Token(Variable, Undefined)
  const Minus := Token(Sub, Undefined)
  const Plus := Token(Add, Undefined)
  const Times := Token(Mult, Undefined)
  const Power := Token(Exponent, Undefined)
  const SinFn := Token(Sin, Undefined)
  const Open := Token(BraceLeft, Undefined)
  const Close := Token(BraceRight, Undefined)

  lemma ShuntUnfold(t: Token, rest: seq<Token>, stack: seq<Token>, out: seq<Token>, stack': seq<Token>, out': seq<Token>)
    requires Step(t, stack, out).Success?
    requires Step(t, stack, out).value.0 == stack' && Step(t, stack, out).value.1 == out'
    ensures Shunt([t] + rest, stack, out) == Shunt(rest, stack', out')
  {
    assert ([t] + rest)[1..] == rest;
  }

  /** The first operator and operand of 1-2-3 leave 2 on the output and - on the stack. */
  lemma LeftAssociativeStart()
    ensures Shunt([One, Minus, Two, Minus, Three], [], []) == Shunt([Minus, Three], [Minus], [One, Two])
  {
    ShuntUnfold(One, [Minus, Two, Minus, Three], [], [], [], [One]);
    ShuntUnfold(Minus, [Two, Minus, Three], [], [One], [Minus], [One]);
    ShuntUnfold(Two, [Minus, Three], [Minus], [One], [Minus], [One, Two]);
  }

  /** The second - pops the first, of equal precedence, before it is pushed. */
  lemma LeftAssociativeEnd()
    ensures Shunt([Minus, Three], [Minus], [One, Two]) == Success([One, Two, Minus, Three, Minus])
  {
    assert PopsFor(Minus, Minus) && Pop([Minus]) == [] && [One, Two] + [Minus] == [One, Two, Minus];
    assert PopOperators(Minus, [Minus], [One, Two]) == PopOperators(Minus, [], [One, Two, Minus]);
    ShuntUnfold(Minus, [Three], [Minus], [One, Two], [Minus], [One, Two, Minus]);
    ShuntUnfold(Three, [], [Minus], [One, Two, Minus], [Minus], [One, Two, Minus, Three]);
    assert Finish([Minus], [One, Two, Minus, Three]) == Finish([], [One, Two, Minus, Three, Minus]) by {
      assert Pop([Minus]) == [] && [One, Two, Minus, Three] + [Minus] == [One, Two, Minus, Three, Minus];
    }
  }

  /** Subtraction is left associative: 1-2-3 becomes 1 2 - 3 -. */
  lemma LeftAssociativeExample()
    ensures ToPostfix([One, Minus, Two, Minus, Three]) == Success([One, Two, Minus, Three, Minus])
  {
    LeftAssociativeStart();
    LeftAssociativeEnd();
  }

  /** The first operator and operand of 1^2^3 leave 2 on the output and ^ on the stack. */
  lemma RightAssociativeStart()
    ensures Shunt([One, Power, Two, Power, Three], [], []) == Shunt([Power, Three], [Power], [One, Two])
  {
    ShuntUnfold(One, [Power, Two, Power, Three], [], [], [], [One]);
    ShuntUnfold(Power, [Two, Power, Three], [], [One], [Power], [One]);
    ShuntUnfold(Two, [Power, Three], [Power], [One], [Power], [One, Two]);
  }

  /** The second ^ does not pop the first: both stay stacked until the end. */
  lemma RightAssociativeEnd()
    ensures Shunt([Power, Three], [Power], [One, Two]) == Success([One, Two, Three, Power, Power])
  {
    assert !PopsFor(Power, Power) && [Power] + [Power] == [Power, Power];
    ShuntUnfold(Power, [Three], [Power], [One, Two], [Power, Power], [One, Two]);
    ShuntUnfold(Three, [], [Power, Power], [One, Two], [Power, Power], [One, Two, Three]);
    assert Finish([Power, Power], [One, Two, Three]) == Finish([Power], [One, Two, Three, Power]) by {
      assert Pop([Power, Power]) == [Power] && [One, Two, Three] + [Power] == [One, Two, Three, Power];
    }
    assert Finish([Power], [One, Two, Three, Power]) == Finish([], [One, Two, Three, Power, Power]) by {
      assert Pop([Power]) == [] && [One, Two, Three, Power] + [Power] == [One, Two, Three, Power, Power];
    }
  }

  /** Exponentiation is right associative: 1^2^3 becomes 1 2 3 ^ ^. */
  lemma RightAssociativeExample()
    ensures ToPostfix([One, Power, Two, Power, Three]) == Success([One, Two, Three, Power, Power])
  {
    RightAssociativeStart();
    RightAssociativeEnd();
  }

  /** The first operator and operand of 1+2*3 leave 2 on the output and + on the stack. */
  lemma PrecedenceStart()
    ensures Shunt([One, Plus, Two, Times, Three], [], []) == Shunt([Times, Three], [Plus], [One, Two])
  {
    ShuntUnfold(One, [Plus, Two, Times, Three], [], [], [], [One]);
    ShuntUnfold(Plus, [Two, Times, Three], [], [One], [Plus], [One]);
    ShuntUnfold(Two, [Times, Three], [Plus], [One], [Plus], [One, Two]);
  }

  /** The * does not pop the + below it, of lower precedence. */
  lemma PrecedenceEnd()
    ensures Shunt([Times, Three], [Plus], [One, Two]) == Success([One, Two, Three, Times, Plus])
  {
    assert !PopsFor(Times, Plus) && [Plus] + [Times] == [Plus, Times];
    ShuntUnfold(Times, [Three], [Plus], [One, Two], [Plus, Times], [One, Two]);
    ShuntUnfold(Three, [], [Plus, Times], [One, Two], [Plus, Times], [One, Two, Three]);
    assert Finish([Plus, Times], [One, Two, Three]) == Finish([Plus], [One, Two, Three, Times]) by {
      assert Pop([Plus, Times]) == [Plus] && [One, Two, Three] + [Times] == [One, Two, Three, Times];
    }
    assert Finish([Plus], [One, Two, Three, Times]) == Finish([], [One, Two, Three, Times, Plus]) by {
      assert Pop([Plus]) == [] && [One, Two, Three, Times] + [Plus] == [One, Two, Three, Times, Plus];
    }
  }

  /** Multiplication binds tighter than addition: 1+2*3 becomes 1 2 3 * +. */
  lemma PrecedenceExample()
    ensures ToPostfix([One, Plus, Two, Times, Three]) == Success([One, Two, Three, Times, Plus])
  {
    PrecedenceStart();
    PrecedenceEnd();
  }

  /** The right brace of sin(x) drops its left brace and emits sin. */
  lemma FunctionExampleClose()
    ensures Step(Close, [SinFn, Open], [X]).Success?
    ensures Step(Close, [SinFn, Open], [X]).value.0 == []
    ensures Step(Close, [SinFn, Open], [X]).value.1 == [X, SinFn]
  {
    assert PopToBrace([SinFn, Open], [X]).Success? && PopToBrace([SinFn, Open], [X]).value.0 == [SinFn]
        && PopToBrace([SinFn, Open], [X]).value.1 == [X] by {
      assert Pop([SinFn, Open]) == [SinFn];
    }
    assert Pop([SinFn]) == [] && [X] + [SinFn] == [X, SinFn];
  }

  /** Reading sin(x): the argument is emitted, then the function. */
  lemma FunctionExampleArgument()
    ensures Shunt([SinFn, Open, X, Close, Times, Two], [], []) == Shunt([Times, Two], [], [X, SinFn])
  {
    ShuntUnfold(SinFn, [Open, X, Close, Times, Two], [], [], [SinFn], []);
    ShuntUnfold(Open, [X, Close, Times, Two], [SinFn], [], [SinFn, Open], []);
    ShuntUnfold(X, [Close, Times, Two], [SinFn, Open], [], [SinFn, Open], [X]);
    FunctionExampleClose();
    ShuntUnfold(Close, [Times, Two], [SinFn, Open], [X], [], [X, SinFn]);
  }

  /** A function is emitted right after the brace that closes its argument: sin(x)*2 becomes x sin 2 *. */
  lemma FunctionExample()
    ensures ToPostfix([SinFn, Open, X, Close, Times, Two]) == Success([X, SinFn, Two, Times])
  {
    FunctionExampleArgument();
    ShuntUnfold(Times, [Two], [], [X, SinFn], [Times], [X, SinFn]);
    ShuntUnfold(Two, [], [Times], [X, SinFn], [Times], [X, SinFn, Two]);
    assert Finish([Times], [X, SinFn, Two]) == Finish([], [X, SinFn, Two, Times]) by {
      assert Pop([Times]) == [] && [X, SinFn, Two] + [Times] == [X, SinFn, Two, Times];
    }
  }

  /** A right brace that closes nothing throws. */
  lemma UnmatchedCloseExample()
    ensures ToPostfix([One, Close]) == Failure(MismatchedParentheses)
  {
    ShuntUnfold(One, [Close], [], [], [], [One]);
    assert Shunt([Close], [], [One]) == Failure(MismatchedParentheses);
  }

  // ---------------------------------------------------------------------
  // The imperative conversion
  // ---------------------------------------------------------------------

  /**
   * `infixToPostfix`: one pass over the infix tokens with an operator
   * stack, then the stack is emptied onto the output.
   */
  method InfixToPostfix(infix: seq<Token>) returns (r: Result<seq<Token>, Error>)
    ensures r == ToPostfix(infix)
  {
    var postfix: seq<Token> := [];
    var stack: seq<Token> := [];
    var idx := 0;
    while idx < |infix|
      invariant idx <= |infix|
      invariant Shunt(infix[idx..], stack, postfix) == ToPostfix(infix)
      decreases |infix| - idx
    {
      var curToken := infix[idx];
      assert infix[idx..][1..] == infix[idx + 1..];
      ghost var stack0, postfix0 := stack, postfix;
      if IsOperand(curToken) {
        postfix := postfix + [curToken];
      } else if IsFunction(curToken) {
        stack := stack + [curToken];
      } else if IsOperator(curToken) {
        while |stack| > 0
          invariant PopOperators(curToken, stack, postfix) == PopOperators(curToken, stack0, postfix0)
          decreases |stack|
        {
          if IsOperator(Top(stack)) {
            if (IsLeftAssociative(curToken) && !HigherPrecedenceThan(curToken, Top(stack)))
               || (IsRightAssociative(curToken) && LowerPrecedenceThan(curToken, Top(stack))) {
              postfix := postfix + [Top(stack)];
              stack := Pop(stack);
            } else {
              break;
            }
          } else {
            break;
          }
        }
        stack := stack + [curToken];
      } else if curToken.ty == BraceLeft {
        stack := stack + [curToken];
      } else {
        // a right brace
        while true
          invariant PopToBrace(stack, postfix) == PopToBrace(stack0, postfix0)
          decreases |stack|
        {
          if |stack| == 0 {
            return Failure(MismatchedParentheses);
          }
          if Top(stack).ty == BraceLeft {
            break;
          }
          postfix := postfix + [Top(stack)];
          stack := Pop(stack);
        }
        stack := Pop(stack); // the left brace
        if |stack| > 0 {
          if IsFunction(Top(stack)) {
            postfix := postfix + [Top(stack)];
            stack := Pop(stack);
          }
        }
      }
      idx := idx + 1;
    }
    // the end of the input: pop the whole stack, failing at a left brace
    while |stack| > 0
      invariant Finish(stack, postfix) == ToPostfix(infix)
      decreases |stack|
    {
      var popped := Top(stack);
      stack := Pop(stack);
      if popped.ty == BraceLeft {
        return Failure(MismatchedParentheses);
      }
      postfix := postfix + [popped];
    }
    return Success(postfix);
  }

  // ---------------------------------------------------------------------
  // From text to postfix
  // ---------------------------------------------------------------------

  /** `stringToPostfix` as a function: tokenize, then convert. */
  function Compile(equation: string): Result<seq<Token>, Error> {
    match PostfixLexer.Lex(PostfixLexer.Rewrite(equation), 0)
    case Failure(e) => Failure(e)
    case Success(infix) => ToPostfix(infix)
  }

  /**
   * Compiling an equation succeeds exactly when it tokenizes and its
   * parentheses match; the result keeps the operands in written order and
   * is a brace-free permutation of the tokens.
   */
  lemma CompileMeaning(equation: string)
    ensures var lexed := PostfixLexer.Lex(PostfixLexer.Rewrite(equation), 0);
      && (Compile(equation).Success? <==> lexed.Success? && Balanced(lexed.value))
      && (lexed.Failure? ==> Compile(equation) == Failure(lexed.error))
      && (lexed.Success? && Compile(equation).Failure? ==> Compile(equation).error == MismatchedParentheses)
      && (Compile(equation).Success? ==>
           && Operands(Compile(equation).value) == Operands(lexed.value)
           && NoBraces(Compile(equation).value)
           && multiset(Compile(equation).value) == multiset(NonBraces(lexed.value)))
  {
    var lexed := PostfixLexer.Lex(PostfixLexer.Rewrite(equation), 0);
    if lexed.Success? {
      ToPostfixFailsIffUnbalanced(lexed.value);
      if Compile(equation).Success? {
        ToPostfixKeepsOperandOrder(lexed.value);
        ToPostfixIsBraceFreePermutation(lexed.value);
      }
    }
  }

  /** `stringToPostfix`: tokenize the equation, then convert it; errors of either stage propagate. */
  method StringToPostfix(equation: string) returns (r: Result<seq<Token>, Error>)
    ensures r == Compile(equation)
  {
    var infix := PostfixLexer.StringToInfix(equation);
    if infix.Failure? {
      return Failure(infix.error);
    }
    r := InfixToPostfix(infix.value);
  }
}
