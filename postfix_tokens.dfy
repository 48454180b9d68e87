/**
 * The token vocabulary of the graphing calculator (mejs/Postfix.js): the
 * static TYPE table with its precedence, associativity and operand counts,
 * the Token predicates, the name lookup table `typeMap`, and the evaluation
 * of a single operator over abstract operand values.
 */
module PostfixTokens {
  import opened Wrappers

  /** The entries of the TYPE table. */
  datatype TokenType =
    | Number | Variable | Pi
    | Add | Sub
    | Sin | Cos | Tan | Log | Ln
    | Div | Mult
    | Exponent
    | BraceLeft | BraceRight

  datatype Associativity = LeftAssoc | RightAssoc

  /** One row of the TYPE table; absent JavaScript properties are `None` or `false`. */
  datatype TypeInfo = TypeInfo(
    prec: Option<int>,
    isOperand: bool,
    isOperator: bool,
    isFunction: bool,
    associativity: Option<Associativity>,
    reqOps: Option<nat>)

  /** The TYPE table. The ensures clauses record the shape the conversion and the evaluator rely on. */
  function Info(t: TokenType): (r: TypeInfo)
    ensures r.isOperator ==> r.prec.Some? && r.associativity.Some? && r.reqOps == Some(2)
    ensures r.isFunction ==> r.prec.Some? && r.associativity.None? && r.reqOps == Some(1)
    ensures r.isOperand ==> r.prec.None? && r.reqOps.None? && !r.isOperator && !r.isFunction
    ensures !r.isOperator ==> r.associativity.None?
    ensures r.reqOps.Some? <==> r.isOperator || r.isFunction
  {
    match t
    case Number     => TypeInfo(None, true, false, false, None, None)
    case Variable   => TypeInfo(None, true, false, false, None, None)
    case Pi         => TypeInfo(None, true, false, false, None, None)
    case Add        => TypeInfo(Some(0), false, true, false, Some(LeftAssoc), Some(2))
    case Sub        => TypeInfo(Some(0), false, true, false, Some(LeftAssoc), Some(2))
    case Sin        => TypeInfo(Some(1), false, false, true, None, Some(1))
    case Cos        => TypeInfo(Some(1), false, false, true, None, Some(1))
    case Tan        => TypeInfo(Some(1), false, false, true, None, Some(1))
    case Log        => TypeInfo(Some(1), false, false, true, None, Some(1))
    case Ln         => TypeInfo(Some(1), false, false, true, None, Some(1))
    case Div        => TypeInfo(Some(2), false, true, false, Some(LeftAssoc), Some(2))
    case Mult       => TypeInfo(Some(2), false, true, false, Some(LeftAssoc), Some(2))
    case Exponent   => TypeInfo(Some(3), false, true, false, Some(RightAssoc), Some(2))
    case BraceLeft  => TypeInfo(Some(10), false, false, false, None, None)
    case BraceRight => TypeInfo(Some(10), false, false, false, None, None)
  }

  /**
   * Operand values, kept abstract: a free term algebra over the operators.
   * `Literal` holds the digits a number token was scanned from (the
   * source's parseFloat is left uninterpreted), `Undefined` is the value
   * of a variable token that has not been bound yet.
   */
  datatype Value =
    | Undefined
    | Literal(text: string)
    | Negated(operand: Value)
    | PiConstant
    | Binary(op: TokenType, left: Value, right: Value)
    | Unary(op: TokenType, arg: Value)

  /** A token: its TYPE entry and, for operands, its value. */
  datatype Token = Token(ty: TokenType, val: Value)

  /** The errors the calculator throws. */
  datatype Error =
    | TooManyDecimals(index: nat)
    | UnknownFunction(name: string)
    | UnknownToken(index: nat)
    | MismatchedParentheses
    | NotEnoughOperands
    | TooManyOperands
    | MissingOperandCount
    | UnknownOperator

  /** The Token constructor: only operand tokens keep the number they are given. */
  function NewToken(t: TokenType, num: Value): (r: Token)
    ensures r.ty == t
    ensures Info(t).isOperand ==> r.val == num
    ensures !Info(t).isOperand ==> r.val == Undefined
  {
    if Info(t).isOperand then Token(t, num) else Token(t, Undefined)
  }

  /** The `constValue` property of a TYPE entry: only PI has one. */
  function ConstValue(t: TokenType): Value {
    if t == Pi then PiConstant else Undefined
  }

  predicate IsOperand(t: Token) { Info(t.ty).isOperand }
  predicate IsOperator(t: Token) { Info(t.ty).isOperator }
  predicate IsFunction(t: Token) { Info(t.ty).isFunction }
  predicate IsLeftAssociative(t: Token) { Info(t.ty).associativity == Some(LeftAssoc) }
  predicate IsRightAssociative(t: Token) { Info(t.ty).associativity == Some(RightAssoc) }
  predicate IsBrace(t: Token) { t.ty == BraceLeft || t.ty == BraceRight }

  /** `a.prec > b.prec`, which is false in JavaScript when either side is undefined. */
  predicate HigherPrecedenceThan(a: Token, b: Token) {
    Info(a.ty).prec.Some? && Info(b.ty).prec.Some? && Info(a.ty).prec.value > Info(b.ty).prec.value
  }

  /** `a.prec == b.prec && a.prec != undefined`. */
  predicate EqualPrecedenceTo(a: Token, b: Token) {
    Info(a.ty).prec.Some? && Info(a.ty).prec == Info(b.ty).prec
  }

  /** `a.prec < b.prec`. */
  predicate LowerPrecedenceThan(a: Token, b: Token) {
    Info(a.ty).prec.Some? && Info(b.ty).prec.Some? && Info(a.ty).prec.value < Info(b.ty).prec.value
  }

  /** The precedence of a token that has one. */
  function Prec(t: Token): int
    requires Info(t.ty).prec.Some?
  {
    Info(t.ty).prec.value
  }

  /** The three precedence comparisons are exclusive, and exhaustive exactly when both precedences are defined. */
  lemma PrecedenceTrichotomy(a: Token, b: Token)
    ensures !(HigherPrecedenceThan(a, b) && EqualPrecedenceTo(a, b))
    ensures !(HigherPrecedenceThan(a, b) && LowerPrecedenceThan(a, b))
    ensures !(EqualPrecedenceTo(a, b) && LowerPrecedenceThan(a, b))
    ensures (HigherPrecedenceThan(a, b) || EqualPrecedenceTo(a, b) || LowerPrecedenceThan(a, b))
        <==> Info(a.ty).prec.Some? && Info(b.ty).prec.Some?
  {
  }

  /** `requiredOperands`: throws for a token whose TYPE entry has no operand count. */
  function RequiredOperands(t: Token): (r: Result<nat, Error>)
    ensures r.Success? <==> IsOperator(t) || IsFunction(t)
    ensures IsOperator(t) ==> r == Success(2)
    ensures IsFunction(t) ==> r == Success(1)
    ensures r.Failure? ==> r.error == MissingOperandCount
  {
    match Info(t.ty).reqOps
    case None => Failure(MissingOperandCount)
    case Some(n) => Success(n)
  }

  /**
   * `typeMap`: the symbols and names the tokenizer knows. No name yields a
   * NUMBER token, and every entry longer than one character is a
   * lower-case word.
   */
  function TypeMap(word: string): (r: Option<TokenType>)
    ensures r.Some? ==> r.value != Number
    ensures r.Some? && |word| != 1 ==> |word| > 1 && forall k :: 0 <= k < |word| ==> 'a' <= word[k] <= 'z'
  {
    match word
    case "*" => Some(Mult)
    case "/" => Some(Div)
    case "-" => Some(Sub)
    case "+" => Some(Add)
    case "^" => Some(Exponent)
    case "(" => Some(BraceLeft)
    case ")" => Some(BraceRight)
    case "x" => Some(Variable)
    case "sin" => Some(Sin)
    case "cos" => Some(Cos)
    case "tan" => Some(Tan)
    case "log" => Some(Log)
    case "ln" => Some(Ln)
    case "pi" => Some(Pi)
    case _ => None
  }

  /** The operator at the root of an applied term. */
  function HeadOf(v: Value): Option<TokenType> {
    match v
    case Binary(op, _, _) => Some(op)
    case Unary(op, _) => Some(op)
    case _ => None
  }

  /** The arguments of an applied term, in left-to-right (written) order. */
  function ArgsOf(v: Value): seq<Value> {
    match v
    case Binary(_, l, r) => [l, r]
    case Unary(_, a) => [a]
    case _ => []
  }

  /**
   * `evaluateByToken`: `ops` holds the operands in the order they were
   * popped, so `ops[0]` is the last one pushed; a binary operator takes
   * `ops[1]` as its left operand and `ops[0]` as its right one.
   */
  function EvaluateByToken(operator: Token, ops: seq<Value>): (r: Result<Value, Error>)
    requires Info(operator.ty).reqOps.Some? ==> |ops| >= Info(operator.ty).reqOps.value
    ensures r.Success? <==> Info(operator.ty).reqOps.Some?
    ensures r.Failure? ==> r.error == UnknownOperator
    ensures r.Success? ==>
      var n := Info(operator.ty).reqOps.value;
      && HeadOf(r.value) == Some(operator.ty)
      && |ArgsOf(r.value)| == n
      && forall k :: 0 <= k < n ==> ArgsOf(r.value)[k] == ops[n - 1 - k]
  {
    match operator.ty
    case Add      => Success(Binary(Add, ops[1], ops[0]))
    case Sub      => Success(Binary(Sub, ops[1], ops[0]))
    case Mult     => Success(Binary(Mult, ops[1], ops[0]))
    case Div      => Success(Binary(Div, ops[1], ops[0]))
    case Exponent => Success(Binary(Exponent, ops[1], ops[0]))
    case Sin      => Success(Unary(Sin, ops[0]))
    case Cos      => Success(Unary(Cos, ops[0]))
    case Tan      => Success(Unary(Tan, ops[0]))
    case Log      => Success(Unary(Log, ops[0]))
    case Ln       => Success(Unary(Ln, ops[0]))
    case _        => Failure(UnknownOperator)
  }
}
