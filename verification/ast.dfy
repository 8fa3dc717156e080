/**
 * The expression tree the parser builds and its evaluation.
 *
 * Integers are Rust's `isize` on a 64-bit target. A decimal is kept as the
 * opaque 64-bit pattern of an `f64`: the evaluator only dispatches on it and
 * hands floating-point addition and subtraction back as `DecimalArithmetic`.
 */
module Ast {

  const ISIZE_MIN: int := -0x8000_0000_0000_0000
  const ISIZE_MAX: int := 0x7FFF_FFFF_FFFF_FFFF

  /** Rust's `isize` on a 64-bit target. */
  type Isize = x: int | ISIZE_MIN <= x <= ISIZE_MAX

  /** The bit pattern of an `f64`. */
  type F64 = bv64

  datatype Number = Integer(value: Isize) | Decimal(bits: F64)

  datatype Operator = Add | Subtract | Multiply | Divide

  /** `Expression::Number` is called `Literal` here. */
  datatype Expression =
    | Literal(number: Number)
    | Binary(left: Expression, op: Operator, right: Expression)

  /** What `evaluate` prints: an integer, a decimal literal, or the result of
      one floating-point `+`/`-` on two decimal literals. */
  datatype Output =
    | IntOutput(value: Isize)
    | DecimalOutput(bits: F64)
    | DecimalArithmetic(op: Operator, lhs: F64, rhs: F64)

  /** `Expression::is_number_integer`: an integer literal. */
  predicate IsNumberInteger(e: Expression) {
    e.Literal? && e.number.Integer?
  }

  /** `Expression::is_number_decimal`: a decimal literal. */
  predicate IsNumberDecimal(e: Expression) {
    e.Literal? && e.number.Decimal?
  }

  predicate IsAdditive(op: Operator) {
    op == Add || op == Subtract
  }

  /** A tree of integer literals joined by `+` and `-` only. */
  predicate IsIntegerTree(e: Expression) {
    match e
    case Literal(n) => n.Integer?
    case Binary(l, op, r) => IsAdditive(op) && IsIntegerTree(l) && IsIntegerTree(r)
  }

  /** The mathematical value of an integer tree, without any width limit. */
  function Denotation(e: Expression): int
    requires IsIntegerTree(e)
  {
    match e
    case Literal(n) => n.value
    case Binary(l, op, r) =>
      if op == Add then Denotation(l) + Denotation(r) else Denotation(l) - Denotation(r)
  }

  /** `Expression::evaluate_int`; any other expression is `unreachable!()`. */
  function EvaluateInt(e: Expression): (v: Isize)
    requires IsNumberInteger(e)
    ensures IsIntegerTree(e) && v == Denotation(e)
  {
    e.number.value
  }

  /** `Expression::evaluate_decimal`; any other expression is `unreachable!()`. */
  function EvaluateDecimal(e: Expression): (bits: F64)
    requires IsNumberDecimal(e)
    ensures e == Literal(Decimal(bits))
  {
    e.number.bits
  }

  /** The operands and operator `evaluate_binary_int` accepts without a panic:
      `+` or `-` (the others are `todo!()`), two integer literals (anything
      else is `unreachable!()`), and a result that fits in `isize` (a debug
      build panics on overflow). */
  predicate IntBinaryDefined(e: Expression) {
    && e.Binary?
    && IsAdditive(e.op)
    && IsNumberInteger(e.left)
    && IsNumberInteger(e.right)
    && var a := e.left.number.value;
       var b := e.right.number.value;
       ISIZE_MIN <= (if e.op == Add then a + b else a - b) <= ISIZE_MAX
  }

  /** `Expression::evaluate_binary_int`. */
  function EvaluateBinaryInt(e: Expression): (v: Isize)
    requires IntBinaryDefined(e)
    ensures IsIntegerTree(e) && v == Denotation(e)
  {
    match e.op
    case Add => EvaluateInt(e.left) + EvaluateInt(e.right)
    case Subtract => EvaluateInt(e.left) - EvaluateInt(e.right)
  }

  /** The operands and operator `evaluate_binary_dec` accepts: `+` or `-` of
      two decimal literals. */
  predicate DecBinaryDefined(e: Expression) {
    e.Binary? && IsAdditive(e.op) && IsNumberDecimal(e.left) && IsNumberDecimal(e.right)
  }

  /** `Expression::evaluate_binary_dec`, with the floating-point operation left symbolic. */
  function EvaluateBinaryDec(e: Expression): (r: Output)
    requires DecBinaryDefined(e)
    ensures r.DecimalArithmetic? && e == Binary(Literal(Decimal(r.lhs)), r.op, Literal(Decimal(r.rhs)))
  {
    DecimalArithmetic(e.op, EvaluateDecimal(e.left), EvaluateDecimal(e.right))
  }

  /** The expressions `evaluate` handles without a panic: a literal, or a
      binary node that takes the integer path when its left child is an
      integer literal and the decimal path otherwise. */
  predicate Evaluable(e: Expression) {
    match e
    case Literal(_) => true
    case Binary(l, _, _) => if IsNumberInteger(l) then IntBinaryDefined(e) else DecBinaryDefined(e)
  }

  /** `Expression::evaluate`, returning what it prints. */
  function Evaluate(e: Expression): (r: Output)
    requires Evaluable(e)
    ensures r.IntOutput? <==> IsNumberInteger(e) || (e.Binary? && IsNumberInteger(e.left))
    ensures r.IntOutput? ==> IsIntegerTree(e) && r.value == Denotation(e)
    ensures r.DecimalOutput? <==> IsNumberDecimal(e)
    ensures r.DecimalOutput? ==> e == Literal(Decimal(r.bits))
    ensures r.DecimalArithmetic? ==> e == Binary(Literal(Decimal(r.lhs)), r.op, Literal(Decimal(r.rhs)))
  {
    if IsNumberInteger(e) then IntOutput(EvaluateInt(e))
    else if IsNumberDecimal(e) then DecimalOutput(EvaluateDecimal(e))
    else if IsNumberInteger(e.left) then IntOutput(EvaluateBinaryInt(e))
    else EvaluateBinaryDec(e)
  }

  /** Which path `evaluate` takes is decided by the left child alone: a binary
      node whose left child is an integer literal never takes the decimal
      path, and one whose left child is anything else never the integer path. */
  lemma {:induction false} EvaluatePathFollowsLeftChild(e: Expression)
    requires e.Binary? && Evaluable(e)
    ensures IsNumberInteger(e.left) ==> Evaluate(e).IntOutput?
    ensures !IsNumberInteger(e.left) ==> Evaluate(e).DecimalArithmetic? && IsNumberDecimal(e.right)
  {
  }

  /** A binary node whose left child is itself a binary node makes `evaluate`
      panic, whatever the operator and right child. */
  lemma {:induction false} NestedLeftNotEvaluable(e: Expression)
    requires e.Binary? && e.left.Binary?
    ensures !Evaluable(e)
  {
  }

  /** `*` and `/` are `todo!()` on both paths: no such node is evaluable. */
  lemma {:induction false} MultiplyDivideNotEvaluable(e: Expression)
    requires e.Binary? && !IsAdditive(e.op)
    ensures !Evaluable(e)
  {
  }

  /** `+` and `-` of two integer literals evaluate to the sum and the
      difference whenever that fits in `isize`. */
  lemma {:induction false} EvaluateSumAndDifference(a: Isize, b: Isize)
    ensures ISIZE_MIN <= a + b <= ISIZE_MAX ==>
              Evaluate(Binary(Literal(Integer(a)), Add, Literal(Integer(b)))) == IntOutput(a + b)
    ensures ISIZE_MIN <= a - b <= ISIZE_MAX ==>
              Evaluate(Binary(Literal(Integer(a)), Subtract, Literal(Integer(b)))) == IntOutput(a - b)
  {
  }
}
