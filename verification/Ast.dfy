/** Expressions of the annotated C programs (src/ast/expr), restricted to the kinds the modelled code handles. */
module Ast {

  datatype UnaryOp = Address | Dereference | Positive | Negative | OnesComplement | Bang

  datatype BinaryOp = Eq | Ne | Lt | Gt | Le | Ge | Addition | Subtraction

  datatype Expr =
    | Identifier(name: string)
    | Constant(k: int)
    | StringLiteral(s: string)
    | Bracketed(inner: Expr)
    | Call(fname: string, args: seq<Expr>)
    | Member(root: Expr, field: string)
    | Unary(op: UnaryOp, operand: Expr)
    | Binary(e1: Expr, bop: BinaryOp, e2: Expr)
    | IsDereferencable(assertand: Expr)

  /** ast_expr_equal aborts on two bracketed or two `$` expressions; these never compare below. */
  predicate Comparable(e: Expr) {
    match e
    case Bracketed(_) => false
    case IsDereferencable(_) => false
    case Call(_, args) => forall i :: 0 <= i < |args| ==> Comparable(args[i])
    case Member(root, _) => Comparable(root)
    case Unary(_, operand) => Comparable(operand)
    case Binary(e1, _, e2) => Comparable(e1) && Comparable(e2)
    case _ => true
  }

  predicate Equal(a: Expr, b: Expr)
    requires Comparable(a) && Comparable(b)
  {
    match (a, b)
    case (Identifier(x), Identifier(y)) => x == y
    case (Constant(x), Constant(y)) => x == y
    case (StringLiteral(x), StringLiteral(y)) => x == y
    case (Unary(o, x), Unary(p, y)) => o == p && Equal(x, y)
    case (Binary(x1, o, x2), Binary(y1, p, y2)) => o == p && Equal(x1, y1) && Equal(x2, y2)
    case (Call(f, xs), Call(g, ys)) =>
      |xs| == |ys| && (forall i :: 0 <= i < |xs| ==> Equal(xs[i], ys[i])) && f == g
    case (Member(x, f), Member(y, g)) => Equal(x, y) && f == g
    case _ => false
  }

  /** The case-by-case comparison is exactly structural equality. */
  lemma {:induction false} EqualIsStructural(a: Expr, b: Expr)
    requires Comparable(a) && Comparable(b)
    ensures Equal(a, b) <==> a == b
  {
    match (a, b)
    case (Unary(_, x), Unary(_, y)) => EqualIsStructural(x, y);
    case (Binary(x1, _, x2), Binary(y1, _, y2)) =>
      EqualIsStructural(x1, y1);
      EqualIsStructural(x2, y2);
    case (Call(_, xs), Call(_, ys)) =>
      if |xs| == |ys| {
        forall i | 0 <= i < |xs|
          ensures Equal(xs[i], ys[i]) <==> xs[i] == ys[i]
        {
          EqualIsStructural(xs[i], ys[i]);
        }
        assert (forall i :: 0 <= i < |xs| ==> Equal(xs[i], ys[i])) <==> xs == ys;
      }
    case (Member(x, _), Member(y, _)) => EqualIsStructural(x, y);
    case _ =>
  }
}
