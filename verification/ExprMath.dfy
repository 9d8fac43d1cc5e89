/** Deciding arithmetic propositions about expressions: ast_expr_matheval and the translation into
    the kernel (src/ast/expr/expr.c). */
module ExprMath {
  import opened Util
  import opened Ast
  import opened Diophantine
  import opened MathKernel

  /** The expressions math_expr translates; every other kind aborts. */
  predicate Arith(e: Expr) {
    match e
    case Identifier(_) => true
    case Constant(_) => true
    case Binary(a, op, b) => (op.Addition? || op.Subtraction?) && Arith(a) && Arith(b)
    case _ => false
  }

  function ToMath(e: Expr): MathExpr
    requires Arith(e)
  {
    match e
    case Identifier(name) => Var(name)
    case Constant(k) => if k < 0 then Neg(Nat(-k)) else Nat(k)
    case Binary(a, op, b) => Sum(ToMath(a), if op.Addition? then ToMath(b) else Neg(ToMath(b)))
  }

  /** The number an arithmetic expression stands for. */
  function Value(e: Expr, rho: Valuation): int
    requires Arith(e)
  {
    match e
    case Identifier(name) => At(rho, name)
    case Constant(k) => k
    case Binary(a, op, b) =>
      if op.Addition? then Value(a, rho) + Value(b, rho) else Value(a, rho) - Value(b, rho)
  }

  lemma {:induction false} TranslationPreservesValue(e: Expr, rho: Valuation)
    requires Arith(e)
    ensures Eval(ToMath(e), rho) == Value(e, rho)
  {
    match e
    case Identifier(_) =>
    case Constant(_) =>
    case Binary(a, _, b) =>
      TranslationPreservesValue(a, rho);
      TranslationPreservesValue(b, rho);
  }

  predicate Names(e: Expr, v: string) {
    match e
    case Identifier(name) => name == v
    case Binary(a, _, b) => Names(a, v) || Names(b, v)
    case _ => false
  }

  lemma {:induction false} TranslationKeepsNames(e: Expr, v: string)
    requires Arith(e)
    ensures Mentions(ToMath(e), v) <==> Names(e, v)
  {
    match e
    case Identifier(_) =>
    case Constant(_) =>
    case Binary(a, _, b) =>
      TranslationKeepsNames(a, v);
      TranslationKeepsNames(b, v);
  }

  predicate Relational(op: BinaryOp) {
    !op.Addition? && !op.Subtraction?
  }

  predicate Holds(x: int, op: BinaryOp, y: int)
    requires Relational(op)
  {
    match op
    case Eq => x == y
    case Ne => x != y
    case Lt => x < y
    case Gt => x > y
    case Le => x <= y
    case Ge => x >= y
  }

  /** eval_prop */
  predicate EvalProp(a: MathExpr, op: BinaryOp, b: MathExpr)
    requires Relational(op)
  {
    match op
    case Eq => MathEq(a, b)
    case Ne => !MathEq(a, b)
    case Lt => MathLt(a, b)
    case Gt => MathGt(a, b)
    case Le => MathLe(a, b)
    case Ge => MathGe(a, b)
  }

  predicate Proposition(e: Expr) {
    e.Binary? && Relational(e.bop) && Arith(e.e1) && Arith(e.e2)
  }

  predicate MathEval(e: Expr)
    requires Proposition(e)
  {
    EvalProp(ToMath(e.e1), e.bop, ToMath(e.e2))
  }

  function ExprTally(e: Expr): Tally
    requires Arith(e)
  {
    TallyOf(ToMath(e))
  }

  lemma ExprTallyValue(e: Expr, rho: Valuation)
    requires Arith(e)
    ensures DistinctKeys(ExprTally(e).coeffs)
    ensures TallyValue(ExprTally(e), rho) == Value(e, rho)
  {
    TranslationPreservesValue(e, rho);
    TallyPreservesValue(ToMath(e), rho);
  }

  /** Both sides mention the same variables with the same coefficients. */
  ghost predicate Matched(a: Expr, b: Expr)
    requires Arith(a) && Arith(b)
  {
    |ExprTally(a).coeffs| == |ExprTally(b).coeffs| && SameCoeffs(ExprTally(a).coeffs, ExprTally(b).coeffs)
  }

  /** When the two sides match, all six comparisons are decided exactly, whatever the variables are. */
  lemma MatchedIsDecidedExactly(a: Expr, op: BinaryOp, b: Expr, rho: Valuation)
    requires Proposition(Binary(a, op, b)) && Matched(a, b)
    ensures MathEval(Binary(a, op, b)) <==> Holds(Value(a, rho), op, Value(b, rho))
  {
    ExprTallyValue(a, rho);
    ExprTallyValue(b, rho);
    SameCoeffsSameDot(ExprTally(a).coeffs, ExprTally(b).coeffs, rho);
  }

  predicate Closed(e: Expr) {
    match e
    case Constant(_) => true
    case Binary(a, op, b) => (op.Addition? || op.Subtraction?) && Closed(a) && Closed(b)
    case _ => false
  }

  lemma EmptyTallies()
    ensures Negated([]) == [] && AddAll([], []) == []
  {
  }

  lemma {:induction false} ClosedIsArith(e: Expr)
    requires Closed(e)
    ensures Arith(e) && ExprTally(e).coeffs == []
  {
    EmptyTallies();
    match e
    case Constant(k) =>
      if k < 0 {
        assert TallyOf(Nat(-k)).coeffs == [] == TallyOf(Neg(Nat(-k))).coeffs;
      }
    case Binary(a, _, b) =>
      ClosedIsArith(a);
      ClosedIsArith(b);
      assert TallyOf(ToMath(b)).coeffs == [] == TallyOf(Neg(ToMath(b))).coeffs;
      assert TallyOf(ToMath(a)).coeffs == [];
  }

  function Val(e: Expr): int
    requires Closed(e)
  {
    match e
    case Constant(k) => k
    case Binary(a, op, b) => if op.Addition? then Val(a) + Val(b) else Val(a) - Val(b)
  }

  lemma ValOfSum(a: Expr, b: Expr)
    requires Closed(a) && Closed(b)
    ensures Val(Binary(a, Addition, b)) == Val(a) + Val(b) && Val(Binary(a, Subtraction, b)) == Val(a) - Val(b)
  {
  }

  lemma {:induction false} ValIsValue(e: Expr, rho: Valuation)
    requires Closed(e) && Arith(e)
    ensures Value(e, rho) == Val(e)
  {
    match e
    case Constant(_) =>
    case Binary(a, _, b) =>
      ValIsValue(a, rho);
      ValIsValue(b, rho);
  }

  /** Variable-free expressions always match, so their comparison is exact. */
  lemma ClosedIsDecidedExactly(a: Expr, op: BinaryOp, b: Expr)
    requires Closed(a) && Closed(b) && Relational(op)
    ensures Proposition(Binary(a, op, b))
    ensures MathEval(Binary(a, op, b)) <==> Holds(Val(a), op, Val(b))
  {
    ClosedIsArith(a);
    ClosedIsArith(b);
    MatchedIsDecidedExactly(a, op, b, map[]);
    ValIsValue(a, map[]);
    ValIsValue(b, map[]);
  }

  // ---- when the answers are right for every value of the variables ----

  lemma DifferenceIsConstant(a: Expr, b: Expr, rho: Valuation)
    requires Arith(a) && Arith(b) && SameCoeffs(ExprTally(a).coeffs, ExprTally(b).coeffs)
    ensures Value(a, rho) - Value(b, rho) == ExprTally(a).num - ExprTally(b).num
  {
    ExprTallyValue(a, rho);
    ExprTallyValue(b, rho);
    SameCoeffsSameDot(ExprTally(a).coeffs, ExprTally(b).coeffs, rho);
  }

  /** Under some valuation the left side is above the right one. */
  lemma GoesAbove(a: Expr, b: Expr) returns (rho: Valuation)
    requires Arith(a) && Arith(b) && !SameCoeffs(ExprTally(a).coeffs, ExprTally(b).coeffs)
    ensures Value(a, rho) > Value(b, rho)
  {
    var ta, tb := ExprTally(a), ExprTally(b);
    ExprTallyValue(a, map[]);
    ExprTallyValue(b, map[]);
    LinearOrder(ta, tb);
    rho :| TallyValue(ta, rho) > TallyValue(tb, rho);
    ExprTallyValue(a, rho);
    ExprTallyValue(b, rho);
  }

  predicate Ordering(op: BinaryOp) {
    op.Lt? || op.Gt? || op.Le? || op.Ge?
  }

  /** The kernel's <, >, <= and >= are right under every valuation exactly when the coefficients agree and either the
      variable counts do too or the constants alone refute the comparison. */
  lemma OrderIsRightEverywhereExactlyWhen(a: Expr, op: BinaryOp, b: Expr)
    requires Arith(a) && Arith(b) && Ordering(op)
    ensures
      var ta, tb := ExprTally(a), ExprTally(b);
      (forall rho :: MathEval(Binary(a, op, b)) <==> Holds(Value(a, rho), op, Value(b, rho)))
      <==> SameCoeffs(ta.coeffs, tb.coeffs) && (|ta.coeffs| == |tb.coeffs| || !Holds(ta.num, op, tb.num))
  {
    var ta, tb := ExprTally(a), ExprTally(b);
    if SameCoeffs(ta.coeffs, tb.coeffs) {
      forall rho: Valuation
        ensures Value(a, rho) - Value(b, rho) == ta.num - tb.num
      {
        DifferenceIsConstant(a, b, rho);
      }
      assert Value(a, map[]) - Value(b, map[]) == ta.num - tb.num;
    } else {
      assert !SameCoeffs(tb.coeffs, ta.coeffs) by {
        var v :| Coeff(ta.coeffs, v) != Coeff(tb.coeffs, v);
        assert Coeff(tb.coeffs, v) != Coeff(ta.coeffs, v);
      }
      var above := GoesAbove(a, b);
      var below := GoesAbove(b, a);
      assert Holds(Value(a, above), op, Value(b, above)) != Holds(Value(a, below), op, Value(b, below));
    }
  }

  /** The coefficients of the difference of the two sides. */
  function DifferenceCoeffs(a: Expr, b: Expr): Coeffs
    requires Arith(a) && Arith(b)
  {
    ExprTally(Binary(a, Subtraction, b)).coeffs
  }

  lemma DifferenceNum(a: Expr, b: Expr)
    requires Arith(a) && Arith(b)
    ensures ExprTally(Binary(a, Subtraction, b)).num == ExprTally(a).num - ExprTally(b).num
  {
    hide AddAll, Negated;
    assert ToMath(Binary(a, Subtraction, b)) == Sum(ToMath(a), Neg(ToMath(b)));
    assert TallyOf(Neg(ToMath(b))).num == -ExprTally(b).num;
  }

  lemma EqualExactlyAt(a: Expr, b: Expr, rho: Valuation)
    requires Arith(a) && Arith(b)
    ensures Value(a, rho) == Value(b, rho) <==>
            Dot(DifferenceCoeffs(a, b), rho) == ExprTally(b).num - ExprTally(a).num
  {
    DifferenceNum(a, b);
    ExprTallyValue(Binary(a, Subtraction, b), rho);
    assert Value(Binary(a, Subtraction, b), rho) == Value(a, rho) - Value(b, rho);
    hide TallyOf, ToMath, Dot, Value;
  }

  lemma EqualSomewhereExactlyWhen(a: Expr, b: Expr)
    requires Arith(a) && Arith(b)
    ensures (exists rho :: Value(a, rho) == Value(b, rho)) <==>
            Divides(GcdAll(DifferenceCoeffs(a, b)), ExprTally(b).num - ExprTally(a).num)
  {
    var c := ExprTally(b).num - ExprTally(a).num;
    ExprTallyValue(Binary(a, Subtraction, b), map[]);
    TakesExactlyMultiples(DifferenceCoeffs(a, b), c);
    if rho :| Value(a, rho) == Value(b, rho) {
      EqualExactlyAt(a, b, rho);
    }
    if rho :| Dot(DifferenceCoeffs(a, b), rho) == c {
      EqualExactlyAt(a, b, rho);
    }
  }

  /** The kernel's == and != are right under every valuation exactly when the answer "equal" comes with agreeing
      coefficients, and the answer "different" with a difference of the constants that the greatest common divisor of
      the coefficients' differences does not divide. */
  lemma EqualityIsRightEverywhereExactlyWhen(a: Expr, op: BinaryOp, b: Expr)
    requires Arith(a) && Arith(b) && (op.Eq? || op.Ne?)
    ensures
      var ta, tb := ExprTally(a), ExprTally(b);
      (forall rho :: MathEval(Binary(a, op, b)) <==> Holds(Value(a, rho), op, Value(b, rho)))
      <==> if |ta.coeffs| == |tb.coeffs| && ta.num == tb.num then SameCoeffs(ta.coeffs, tb.coeffs)
           else !Divides(GcdAll(DifferenceCoeffs(a, b)), tb.num - ta.num)
  {
    var ta, tb := ExprTally(a), ExprTally(b);
    EqualSomewhereExactlyWhen(a, b);
    if |ta.coeffs| == |tb.coeffs| && ta.num == tb.num {
      if SameCoeffs(ta.coeffs, tb.coeffs) {
        forall rho: Valuation
          ensures Value(a, rho) == Value(b, rho)
        {
          DifferenceIsConstant(a, b, rho);
        }
      } else {
        var rho := GoesAbove(a, b);
        assert Value(a, rho) != Value(b, rho);
      }
    }
  }
}
