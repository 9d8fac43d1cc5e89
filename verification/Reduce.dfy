/** Reduction of an expression to parameter form (src/ast/expr/verify.c): variables are replaced by their
    symbolic values, so that what is left speaks only of parameters and locations. */
module Reduce {
  import opened Util
  import opened Ast

  /** A value as far as reduction looks at it; a pointer is known by the rendering of its location. */
  datatype Value =
    | Int(k: int)
    | Sync(e: Expr)
    | Ptr(location: string)
    | Literal(s: string)
    | Struct(members: seq<Entry<Option<Value>>>)

  /** The bindings of a state: variables, declared parameter names, and the pooled string literals in the
      order of their static blocks. */
  datatype Env = Env(vars: map<string, Option<Value>>, vconsts: set<string>, pool: seq<string>)

  /** Undefined is the user error of reading nothing; Aborts is a failing assertion of the source. */
  datatype Outcome = Val(v: Value) | Undefined(name: string) | Aborts

  datatype Reduction = Reduction(out: Outcome, env: Env)

  const PTR := "ptr:"

  /** A name that stands for itself: a declared parameter or a rendered pointer. */
  predicate BuiltIn(id: string, vconsts: set<string>) {
    id in vconsts || PTR <= id
  }

  predicate Hash(id: string) {
    |id| > 0 && id[0] == '#'
  }

  /** expr_identifier_eval */
  function EvalIdentifier(id: string, env: Env): Outcome {
    if BuiltIn(id, env.vconsts) then Val(Sync(Identifier(id)))
    else if Hash(id) then Val(Literal(id))
    else if id !in env.vars then Undefined(id)
    else
      match env.vars[id]
      case None => Undefined(id)
      case Some(v) => Val(v)
  }

  /** value_to_expr; a struct aborts. */
  function ToExpr(v: Value): Option<Expr> {
    match v
    case Int(k) => Some(Constant(k))
    case Sync(e) => Some(e)
    case Ptr(location) => Some(Identifier(PTR + location))
    case Literal(s) => Some(StringLiteral(s))
    case Struct(_) => None
  }

  function IndexOf(pool: seq<string>, s: string): (r: nat)
    ensures r <= |pool| && forall i :: 0 <= i < r ==> pool[i] != s
    ensures r < |pool| ==> pool[r] == s
  {
    if pool == [] || pool[0] == s then 0 else IndexOf(pool[1..], s) + 1
  }

  function StaticName(block: nat): string {
    "static:" + NatStr(block)
  }

  /** state_static_init: each distinct literal has one static block, however often it is met. */
  function PoolLiteral(s: string, env: Env): Reduction {
    var i := IndexOf(env.pool, s);
    var pool := if i == |env.pool| then env.pool + [s] else env.pool;
    Reduction(Val(Ptr(StaticName(i))), env.(pool := pool))
  }

  /** ast_expr_pf_reduce */
  function PfReduce(e: Expr, env: Env): Reduction
    decreases e
  {
    match e
    case Constant(k) => Reduction(Val(Int(k)), env)
    case StringLiteral(s) => PoolLiteral(s, env)
    case Identifier(name) => Reduction(EvalIdentifier(name, env), env)
    case Bracketed(inner) => PfReduce(inner, env)
    case Unary(op, operand) =>
      var r := PfReduce(operand, env);
      if !r.out.Val? then r
      else if !r.out.v.Sync? then Reduction(Aborts, r.env)
      else Reduction(Val(Sync(Unary(op, r.out.v.e))), r.env)
    case Binary(a, op, b) =>
      var r1 := PfReduce(a, env);
      if !r1.out.Val? then r1
      else
        var r2 := PfReduce(b, r1.env);
        if !r2.out.Val? then r2
        else
          (match (ToExpr(r1.out.v), ToExpr(r2.out.v))
           case (Some(x), Some(y)) => Reduction(Val(Sync(Binary(x, op, y))), r2.env)
           case _ => Reduction(Aborts, r2.env))
    case Call(f, args) =>
      var r := ReduceArgs(args, env);
      (match r.args
       case Err(out) => Reduction(out, r.env)
       case Ok(xs) => Reduction(Val(Sync(Call(f, xs))), r.env))
    case Member(root, field) =>
      var r := PfReduce(root, env);
      if !r.out.Val? then r
      else Reduction(MemberOf(r.out.v, field), r.env)
    case IsDereferencable(_) => Reduction(Aborts, env)
  }

  /** A member of a struct value is its value; of a symbolic value, a symbolic member. */
  function MemberOf(v: Value, field: string): Outcome {
    match v
    case Struct(members) =>
      var member := Lookup(members, field);
      if member.Some? && member.value.Some? then Val(member.value.value) else Aborts
    case Sync(e) => Val(Sync(Member(e, field)))
    case _ => Aborts
  }

  datatype ArgsReduction = ArgsReduction(args: Result<seq<Expr>, Outcome>, env: Env)

  function ReduceArgs(args: seq<Expr>, env: Env): (r: ArgsReduction)
    ensures r.args.Err? ==> !r.args.error.Val?
    decreases args
  {
    if args == [] then ArgsReduction(Ok([]), env)
    else
      var r := PfReduce(args[0], env);
      if !r.out.Val? then ArgsReduction(Err(r.out), r.env)
      else if ToExpr(r.out.v).None? then ArgsReduction(Err(Aborts), r.env)
      else
        var rest := ReduceArgs(args[1..], r.env);
        match rest.args
        case Err(out) => rest
        case Ok(xs) => ArgsReduction(Ok([ToExpr(r.out.v).value] + xs), rest.env)
  }

  // ---- the pool only grows ----

  ghost predicate Grown(env: Env, env': Env) {
    env' == env.(pool := env'.pool) && env.pool <= env'.pool && (Distinct(env.pool) ==> Distinct(env'.pool))
  }

  lemma {:induction false} ReductionGrowsPool(e: Expr, env: Env)
    ensures Grown(env, PfReduce(e, env).env)
    decreases e
  {
    match e
    case Bracketed(inner) => ReductionGrowsPool(inner, env);
    case Unary(_, operand) => ReductionGrowsPool(operand, env);
    case Binary(a, _, b) =>
      ReductionGrowsPool(a, env);
      ReductionGrowsPool(b, PfReduce(a, env).env);
    case Call(_, args) => ArgsGrowPool(args, env);
    case Member(root, _) => ReductionGrowsPool(root, env);
    case _ =>
  }

  lemma {:induction false} ArgsGrowPool(args: seq<Expr>, env: Env)
    ensures Grown(env, ReduceArgs(args, env).env)
    decreases args
  {
    if args != [] {
      ReductionGrowsPool(args[0], env);
      ArgsGrowPool(args[1..], PfReduce(args[0], env).env);
    }
  }

  /** An environment with the same bindings and a pool at least as large. */
  ghost predicate Later(env: Env, env': Env) {
    env' == env.(pool := env'.pool) && env.pool <= env'.pool
  }

  lemma IndexInLarger(pool: seq<string>, pool': seq<string>, s: string)
    requires pool <= pool' && IndexOf(pool, s) < |pool|
    ensures IndexOf(pool', s) == IndexOf(pool, s)
  {
  }

  /** Once an expression has been reduced its result is stable: later reductions under the same bindings give
      the same result and leave the environment alone. */
  lemma {:induction false} ReductionIsStable(e: Expr, env: Env, later: Env)
    requires Later(PfReduce(e, env).env, later)
    ensures PfReduce(e, later) == Reduction(PfReduce(e, env).out, later)
    decreases e
  {
    ReductionGrowsPool(e, env);
    match e
    case StringLiteral(s) =>
      var i := IndexOf(env.pool, s);
      var pool := PfReduce(e, env).env.pool;
      assert pool[i] == s;
      assert IndexOf(pool, s) == i;
      IndexInLarger(pool, later.pool, s);
    case Bracketed(inner) => ReductionIsStable(inner, env, later);
    case Unary(_, operand) => ReductionIsStable(operand, env, later);
    case Binary(a, _, b) =>
      var r1 := PfReduce(a, env);
      ReductionGrowsPool(a, env);
      ReductionGrowsPool(b, r1.env);
      ReductionIsStable(a, env, later);
      if r1.out.Val? {
        ReductionIsStable(b, r1.env, later);
      }
    case Call(_, args) => ArgsAreStable(args, env, later);
    case Member(root, _) => ReductionIsStable(root, env, later);
    case _ =>
  }

  lemma {:induction false} ArgsAreStable(args: seq<Expr>, env: Env, later: Env)
    requires Later(ReduceArgs(args, env).env, later)
    ensures ReduceArgs(args, later) == ArgsReduction(ReduceArgs(args, env).args, later)
    decreases args
  {
    if args != [] {
      var r := PfReduce(args[0], env);
      ReductionGrowsPool(args[0], env);
      ArgsGrowPool(args[1..], r.env);
      ReductionIsStable(args[0], env, later);
      if r.out.Val? && ToExpr(r.out.v).Some? {
        ArgsAreStable(args[1..], r.env, later);
      }
    }
  }

  /** Equal literals reduce to the same pointer, and different ones to different pointers. */
  lemma LiteralsAreApart(s: string, t: string, env: Env)
    ensures var r := PfReduce(StringLiteral(s), env);
            PfReduce(StringLiteral(t), r.env).out == r.out <==> s == t
  {
    var pool := PfReduce(StringLiteral(s), env).env.pool;
    var i, j := IndexOf(env.pool, s), IndexOf(pool, t);
    assert pool[i] == s;
    if StaticName(i) == StaticName(j) {
      assert StaticName(i)[7..] == NatStr(i) && StaticName(j)[7..] == NatStr(j);
      NatStrInjective(i, j);
    }
    if s == t {
      ReductionIsStable(StringLiteral(s), env, PfReduce(StringLiteral(s), env).env);
    }
  }

  // ---- reduction preserves meaning ----

  /** What names, literals, calls, members and operators mean; nothing is assumed about any of them. */
  datatype Interp<!D> = Interp(
    ident: string -> D, num: int -> D, lit: string -> D, call: (string, seq<D>) -> D,
    member: (D, string) -> D, unary: (UnaryOp, D) -> D, binary: (BinaryOp, D, D) -> D, deref: D -> D)

  /** The meaning of an expression by itself, under a valuation of its names. */
  function Meaning<D>(e: Expr, m: Interp<D>): D
    decreases e
  {
    match e
    case Identifier(name) => m.ident(name)
    case Constant(k) => m.num(k)
    case StringLiteral(s) => m.lit(s)
    case Bracketed(inner) => Meaning(inner, m)
    case Call(f, args) => m.call(f, Meanings(args, m))
    case Member(root, field) => m.member(Meaning(root, m), field)
    case Unary(op, operand) => m.unary(op, Meaning(operand, m))
    case Binary(a, op, b) => m.binary(op, Meaning(a, m), Meaning(b, m))
    case IsDereferencable(x) => m.deref(Meaning(x, m))
  }

  function Meanings<D>(es: seq<Expr>, m: Interp<D>): seq<D>
    decreases es
  {
    if es == [] then [] else [Meaning(es[0], m)] + Meanings(es[1..], m)
  }

  /** What an expression denotes in a state: an element of the domain, which a symbol stands for or a definite value,
      or a struct. */
  datatype Denotation<D> = Scalar(d: D, symbolic: bool) | Aggregate(members: seq<Entry<Option<Value>>>)

  function Denote<D>(v: Value, m: Interp<D>): Denotation<D> {
    match v
    case Int(k) => Scalar(m.num(k), false)
    case Sync(e) => Scalar(Meaning(e, m), true)
    case Ptr(location) => Scalar(m.ident("ptr:" + location), false)
    case Literal(s) => Scalar(m.lit(s), false)
    case Struct(members) => Aggregate(members)
  }

  /** An expression denotes something, reads a name that holds nothing, or is one that reduction does not allow. */
  datatype Evaluation<D> = Means(v: Denotation<D>) | Unbound(name: string) | Improper

  /** A binary operator on what its operands denote. */
  function Combined<D>(op: BinaryOp, x: Denotation<D>, y: Denotation<D>, m: Interp<D>): Evaluation<D> {
    if x.Scalar? && y.Scalar? then Means(Scalar(m.binary(op, x.d, y.d), true)) else Improper
  }

  /** The reference semantics: evaluate the source expression under the bindings, operator by operator. A declared
      parameter and a rendered pointer stand for themselves, a name starting with '#' for a literal, and any other name
      for what it is bound to. */
  ghost function Evaluate<D>(e: Expr, env: Env, m: Interp<D>): Evaluation<D>
    decreases e
  {
    match e
    case Constant(k) => Means(Scalar(m.num(k), false))
    case StringLiteral(s) => Means(Scalar(m.lit(s), false))
    case Identifier(name) =>
      if name in env.vconsts || "ptr:" <= name then Means(Scalar(m.ident(name), true))
      else if "#" <= name then Means(Scalar(m.lit(name), false))
      else if name in env.vars && env.vars[name].Some? then Means(Denote(env.vars[name].value, m))
      else Unbound(name)
    case Bracketed(inner) => Evaluate(inner, env, m)
    case Unary(op, operand) =>
      (match Evaluate(operand, env, m)
       case Means(Scalar(d, true)) => Means(Scalar(m.unary(op, d), true))
       case Means(_) => Improper
       case other => other)
    case Binary(a, op, b) =>
      var x, y := Evaluate(a, env, m), Evaluate(b, env, m);
      if !x.Means? then x else if !y.Means? then y else Combined(op, x.v, y.v, m)
    case Call(f, args) =>
      (match EvaluateArgs(args, env, m)
       case Ok(ds) => Means(Scalar(m.call(f, ds), true))
       case Err(other) => other)
    case Member(root, field) =>
      (match Evaluate(root, env, m)
       case Means(Scalar(d, true)) => Means(Scalar(m.member(d, field), true))
       case Means(Aggregate(members)) =>
         if field in AsMap(members) && AsMap(members)[field].Some? then Means(Denote(AsMap(members)[field].value, m))
         else Improper
       case Means(_) => Improper
       case other => other)
    case IsDereferencable(_) => Improper
  }

  ghost function EvaluateArgs<D>(args: seq<Expr>, env: Env, m: Interp<D>): Result<seq<D>, Evaluation<D>>
    decreases args
  {
    if args == [] then Ok([])
    else
      match (Evaluate(args[0], env, m), EvaluateArgs(args[1..], env, m))
      case (Means(Scalar(d, _)), Ok(ds)) => Ok([d] + ds)
      case (Means(Scalar(_, _)), rest) => rest
      case (Means(_), _) => Err(Improper)
      case (other, _) => Err(other)
  }

  /** Each pooled literal means what the pointer to its static block means. */
  ghost predicate Consistent<D>(m: Interp<D>, pool: seq<string>) {
    forall i :: 0 <= i < |pool| ==> m.ident("ptr:" + StaticName(i)) == m.lit(pool[i])
  }

  /** Reduction and evaluation come to the same. */
  ghost predicate Agree<D>(out: Outcome, v: Evaluation<D>, m: Interp<D>) {
    match out
    case Val(x) => v == Means(Denote(x, m))
    case Undefined(name) => v == Unbound(name)
    case Aborts => v == Improper
  }

  /** The expression of a scalar means what the scalar denotes; a struct has none. */
  lemma ToExprMeans<D>(v: Value, m: Interp<D>)
    ensures match ToExpr(v)
            case Some(x) => Denote(v, m) == Scalar(Meaning(x, m), v.Sync?)
            case None => Denote(v, m).Aggregate?
  {
  }

  /** Reduction to parameter form preserves meaning: the reduced expression, read under a valuation of parameters
      and locations alone, means what the original means under the bindings of the state; reduction names an undefined
      variable exactly when the original reads one first, and aborts exactly when the original is not allowed. */
  lemma {:induction false} ReductionPreservesMeaning<D>(e: Expr, env: Env, m: Interp<D>)
    requires Consistent(m, PfReduce(e, env).env.pool)
    ensures Agree(PfReduce(e, env).out, Evaluate(e, env, m), m)
    decreases e, 1
  {
    match e
    case StringLiteral(s) =>
      assert PfReduce(e, env).env.pool[IndexOf(env.pool, s)] == s;
    case Bracketed(inner) => ReductionPreservesMeaning(inner, env, m);
    case Unary(_, operand) => ReductionPreservesMeaning(operand, env, m);
    case Binary(_, _, _) => BinaryPreservesMeaning(e, env, m);
    case Call(f, args) =>
      CallPreservesMeaning(args, env, m);
      var xs := ReduceArgs(args, env).args;
      assert xs.Ok? ==> Meaning(Call(f, xs.value), m) == m.call(f, Meanings(xs.value, m));
    case Member(root, field) =>
      ReductionPreservesMeaning(root, env, m);
      var r := PfReduce(root, env).out;
      if r.Val? && r.v.Struct? {
        LookupAsMap(r.v.members, field);
      }
    case _ =>
  }

  lemma {:induction false} BinaryPreservesMeaning<D>(e: Expr, env: Env, m: Interp<D>)
    requires e.Binary? && Consistent(m, PfReduce(e, env).env.pool)
    ensures Agree(PfReduce(e, env).out, Evaluate(e, env, m), m)
    decreases e, 0
  {
    var r1 := PfReduce(e.e1, env);
    ReductionGrowsPool(e.e1, env);
    ReductionGrowsPool(e.e2, r1.env);
    ReductionPreservesMeaning(e.e1, env, m);
    if r1.out.Val? {
      ReductionPreservesMeaning(e.e2, r1.env, m);
      BindingsDecide(e.e2, env, r1.env, m);
      var r2 := PfReduce(e.e2, r1.env).out;
      if r2.Val? {
        CombinedMeans(r1.out.v, e.bop, r2.v, m);
      }
    }
  }

  lemma CombinedMeans<D>(x: Value, op: BinaryOp, y: Value, m: Interp<D>)
    ensures Combined(op, Denote(x, m), Denote(y, m), m) ==
            match (ToExpr(x), ToExpr(y))
            case (Some(a), Some(b)) => Means(Denote(Sync(Binary(a, op, b)), m))
            case _ => Improper
  {
    ToExprMeans(x, m);
    ToExprMeans(y, m);
  }

  /** Evaluation does not look at the pool. */
  lemma {:induction false} BindingsDecide<D>(e: Expr, env: Env, env': Env, m: Interp<D>)
    requires env' == env.(pool := env'.pool)
    ensures Evaluate(e, env', m) == Evaluate(e, env, m)
    decreases e
  {
    match e
    case Bracketed(inner) => BindingsDecide(inner, env, env', m);
    case Unary(_, operand) => BindingsDecide(operand, env, env', m);
    case Binary(a, _, b) =>
      BindingsDecide(a, env, env', m);
      BindingsDecide(b, env, env', m);
    case Call(_, args) => BindingsDecideArgs(args, env, env', m);
    case Member(root, _) => BindingsDecide(root, env, env', m);
    case _ =>
  }

  lemma {:induction false} BindingsDecideArgs<D>(args: seq<Expr>, env: Env, env': Env, m: Interp<D>)
    requires env' == env.(pool := env'.pool)
    ensures EvaluateArgs(args, env', m) == EvaluateArgs(args, env, m)
    decreases args
  {
    if args != [] {
      BindingsDecide(args[0], env, env', m);
      BindingsDecideArgs(args[1..], env, env', m);
    }
  }

  lemma {:induction false} CallPreservesMeaning<D>(args: seq<Expr>, env: Env, m: Interp<D>)
    requires Consistent(m, ReduceArgs(args, env).env.pool)
    ensures var r := ReduceArgs(args, env).args;
            match r
            case Ok(xs) => EvaluateArgs(args, env, m) == Ok(Meanings(xs, m))
            case Err(out) => EvaluateArgs(args, env, m).Err? && Agree(out, EvaluateArgs(args, env, m).error, m)
    decreases args
  {
    if args != [] {
      var r := PfReduce(args[0], env);
      ReductionGrowsPool(args[0], env);
      ArgsGrowPool(args[1..], r.env);
      ReductionPreservesMeaning(args[0], env, m);
      if r.out.Val? && ToExpr(r.out.v).Some? {
        CallPreservesMeaning(args[1..], r.env, m);
        BindingsDecideArgs(args[1..], env, r.env, m);
        var x, rest := ToExpr(r.out.v).value, ReduceArgs(args[1..], r.env).args;
        if rest.Ok? {
          assert ([x] + rest.value)[1..] == rest.value;
        }
      }
    }
  }

  // ---- reduction is idempotent ----

  /** In parameter form: no variables, no literals, no brackets, and a symbolic operand under every unary operator
      and member access. */
  predicate Normal(e: Expr, vconsts: set<string>)
    decreases e
  {
    match e
    case Identifier(name) => BuiltIn(name, vconsts)
    case Constant(_) => true
    case Unary(_, operand) => Normal(operand, vconsts) && !operand.Constant?
    case Binary(a, _, b) => Normal(a, vconsts) && Normal(b, vconsts)
    case Call(_, args) => forall i :: 0 <= i < |args| ==> Normal(args[i], vconsts)
    case Member(root, _) => Normal(root, vconsts) && !root.Constant?
    case _ => false
  }

  predicate NormalValue(v: Value, vconsts: set<string>)
    decreases v
  {
    match v
    case Sync(e) => Normal(e, vconsts) && !e.Constant?
    case Literal(_) => false
    case Struct(members) =>
      forall i :: 0 <= i < |members| && members[i].value.Some? ==> NormalValue(members[i].value.value, vconsts)
    case _ => true
  }

  /** Every variable holds a value in parameter form. */
  ghost predicate NormalEnv(env: Env) {
    forall x :: x in env.vars && env.vars[x].Some? ==> NormalValue(env.vars[x].value, env.vconsts)
  }

  /** No name of e is taken for a literal: those starting with '#' are declared parameters. */
  predicate NoStrayHash(e: Expr, vconsts: set<string>)
    decreases e
  {
    match e
    case Identifier(name) => Hash(name) ==> BuiltIn(name, vconsts)
    case Bracketed(inner) => NoStrayHash(inner, vconsts)
    case Unary(_, operand) => NoStrayHash(operand, vconsts)
    case Binary(a, _, b) => NoStrayHash(a, vconsts) && NoStrayHash(b, vconsts)
    case Call(_, args) => forall i :: 0 <= i < |args| ==> NoStrayHash(args[i], vconsts)
    case Member(root, _) => NoStrayHash(root, vconsts)
    case IsDereferencable(x) => NoStrayHash(x, vconsts)
    case _ => true
  }

  function Symbolic(e: Expr): Value {
    if e.Constant? then Int(e.k) else Sync(e)
  }

  /** An expression in parameter form reduces to itself and touches nothing. */
  lemma {:induction false} NormalIsFixed(e: Expr, env: Env)
    requires Normal(e, env.vconsts)
    ensures PfReduce(e, env) == Reduction(Val(Symbolic(e)), env)
    decreases e
  {
    match e
    case Unary(_, operand) => NormalIsFixed(operand, env);
    case Binary(a, _, b) =>
      NormalIsFixed(a, env);
      NormalIsFixed(b, env);
    case Call(_, args) => NormalArgsAreFixed(args, env);
    case Member(root, _) => NormalIsFixed(root, env);
    case _ =>
  }

  lemma {:induction false} NormalArgsAreFixed(args: seq<Expr>, env: Env)
    requires forall i :: 0 <= i < |args| ==> Normal(args[i], env.vconsts)
    ensures ReduceArgs(args, env) == ArgsReduction(Ok(args), env)
    decreases args
  {
    if args != [] {
      NormalIsFixed(args[0], env);
      NormalArgsAreFixed(args[1..], env);
      assert [args[0]] + args[1..] == args;
    }
  }

  lemma {:induction false} ReducesToNormal(e: Expr, env: Env)
    requires NormalEnv(env) && NoStrayHash(e, env.vconsts) && PfReduce(e, env).out.Val?
    ensures NormalValue(PfReduce(e, env).out.v, env.vconsts)
    decreases e
  {
    match e
    case Bracketed(inner) => ReducesToNormal(inner, env);
    case Unary(_, operand) => ReducesToNormal(operand, env);
    case Binary(a, _, b) =>
      ReducesToNormal(a, env);
      ReductionGrowsPool(a, env);
      ReducesToNormal(b, PfReduce(a, env).env);
    case Call(_, args) => ArgsReduceToNormal(args, env);
    case Member(root, field) =>
      ReducesToNormal(root, env);
      var v := PfReduce(root, env).out.v;
      if v.Struct? {
        var i := Find(v.members, field);
        assert NormalValue(v.members[i].value.value, env.vconsts);
      }
    case _ =>
  }

  lemma {:induction false} ArgsReduceToNormal(args: seq<Expr>, env: Env)
    requires NormalEnv(env) && (forall i :: 0 <= i < |args| ==> NoStrayHash(args[i], env.vconsts))
    requires ReduceArgs(args, env).args.Ok?
    ensures forall i :: 0 <= i < |ReduceArgs(args, env).args.value| ==>
      Normal(ReduceArgs(args, env).args.value[i], env.vconsts)
    decreases args
  {
    if args != [] {
      ReducesToNormal(args[0], env);
      ReductionGrowsPool(args[0], env);
      ArgsReduceToNormal(args[1..], PfReduce(args[0], env).env);
    }
  }

  /** Reducing e gave an expression that reduces to itself. */
  predicate ReducesToFixed(e: Expr, env: Env) {
    var r := PfReduce(e, env);
    && r.out.Val? && ToExpr(r.out.v).Some?
    && var again := PfReduce(ToExpr(r.out.v).value, r.env);
       again.out.Val? && ToExpr(again.out.v) == ToExpr(r.out.v) && again.env == r.env
  }

  lemma ReductionIsIdempotent(e: Expr, env: Env)
    requires NormalEnv(env) && NoStrayHash(e, env.vconsts)
    requires PfReduce(e, env).out.Val? && ToExpr(PfReduce(e, env).out.v).Some?
    ensures ReducesToFixed(e, env) && Normal(ToExpr(PfReduce(e, env).out.v).value, env.vconsts)
  {
    var r := PfReduce(e, env);
    ReducesToNormal(e, env);
    ReductionGrowsPool(e, env);
    NormalIsFixed(ToExpr(r.out.v).value, r.env);
  }

  // ---- and only then ----

  predicate HasLiteral(e: Expr)
    decreases e
  {
    match e
    case StringLiteral(_) => true
    case Bracketed(inner) => HasLiteral(inner)
    case Unary(_, operand) => HasLiteral(operand)
    case Binary(a, _, b) => HasLiteral(a) || HasLiteral(b)
    case Call(_, args) => exists i :: 0 <= i < |args| && HasLiteral(args[i])
    case Member(root, _) => HasLiteral(root)
    case IsDereferencable(x) => HasLiteral(x)
    case _ => false
  }

  /** A struct value comes out of a variable, along members only. */
  lemma {:induction false} StructComesFromVariable(e: Expr, env: Env)
    requires NormalEnv(env) && PfReduce(e, env).out.Val? && PfReduce(e, env).out.v.Struct?
    ensures NormalValue(PfReduce(e, env).out.v, env.vconsts) && NoStrayHash(e, env.vconsts)
    decreases e
  {
    match e
    case Bracketed(inner) => StructComesFromVariable(inner, env);
    case Member(root, field) =>
      StructComesFromVariable(root, env);
      MemberIsNormal(PfReduce(root, env).out.v, field, env.vconsts);
    case _ =>
  }

  lemma MemberIsNormal(v: Value, field: string, vconsts: set<string>)
    requires v.Struct? && NormalValue(v, vconsts) && MemberOf(v, field).Val?
    ensures NormalValue(MemberOf(v, field).v, vconsts)
  {
  }

  lemma {:induction false} NormalHasNoLiteral(e: Expr, vconsts: set<string>)
    requires Normal(e, vconsts)
    ensures !HasLiteral(e)
    decreases e
  {
    match e
    case Unary(_, operand) => NormalHasNoLiteral(operand, vconsts);
    case Binary(a, _, b) =>
      NormalHasNoLiteral(a, vconsts);
      NormalHasNoLiteral(b, vconsts);
    case Call(_, args) =>
      forall i | 0 <= i < |args|
        ensures !HasLiteral(args[i])
      {
        NormalHasNoLiteral(args[i], vconsts);
      }
    case Member(root, _) => NormalHasNoLiteral(root, vconsts);
    case _ =>
  }

  lemma NormalValueHasNoLiteral(v: Value, vconsts: set<string>)
    requires NormalValue(v, vconsts) && ToExpr(v).Some?
    ensures !HasLiteral(ToExpr(v).value)
  {
    if v.Sync? {
      NormalHasNoLiteral(v.e, vconsts);
    }
  }

  lemma {:induction false} NeverBracketed(e: Expr, env: Env)
    requires NormalEnv(env) && PfReduce(e, env).out.Val?
    ensures ToExpr(PfReduce(e, env).out.v).Some? ==> !ToExpr(PfReduce(e, env).out.v).value.Bracketed?
    decreases e
  {
    match e
    case Bracketed(inner) => NeverBracketed(inner, env);
    case Member(root, field) =>
      if PfReduce(root, env).out.v.Struct? {
        StructComesFromVariable(root, env);
        MemberIsNormal(PfReduce(root, env).out.v, field, env.vconsts);
      }
    case _ =>
  }

  /** An expression that holds a literal never reduces to itself: the literal becomes a pointer. */
  lemma {:induction false} LiteralIsNotFixed(x: Expr, env: Env)
    requires NormalEnv(env) && HasLiteral(x) && PfReduce(x, env).out.Val?
    ensures ToExpr(PfReduce(x, env).out.v) != Some(x)
    decreases x
  {
    match x
    case Unary(_, operand) => LiteralIsNotFixed(operand, env);
    case Binary(a, _, b) =>
      if HasLiteral(a) {
        LiteralIsNotFixed(a, env);
      } else {
        ReductionGrowsPool(a, env);
        LiteralIsNotFixed(b, PfReduce(a, env).env);
      }
    case Call(_, args) => LiteralArgsAreNotFixed(args, env);
    case Bracketed(_) => NeverBracketed(x, env);
    case Member(root, field) =>
      LiteralIsNotFixed(root, env);
      var v := PfReduce(root, env).out.v;
      if v.Struct? {
        StructComesFromVariable(root, env);
        MemberIsNormal(v, field, env.vconsts);
        if ToExpr(MemberOf(v, field).v).Some? {
          NormalValueHasNoLiteral(MemberOf(v, field).v, env.vconsts);
        }
      }
    case _ =>
  }

  lemma {:induction false} LiteralArgsAreNotFixed(args: seq<Expr>, env: Env)
    requires NormalEnv(env) && ReduceArgs(args, env).args.Ok?
    requires exists i :: 0 <= i < |args| && HasLiteral(args[i])
    ensures ReduceArgs(args, env).args.value != args
    decreases args
  {
    var r := PfReduce(args[0], env);
    ReductionGrowsPool(args[0], env);
    var rest := ReduceArgs(args[1..], r.env).args.value;
    assert ([ToExpr(r.out.v).value] + rest)[1..] == rest;
    if HasLiteral(args[0]) {
      LiteralIsNotFixed(args[0], env);
    } else {
      var i :| 0 <= i < |args| && HasLiteral(args[i]);
      assert args[1..][i - 1] == args[i];
      LiteralArgsAreNotFixed(args[1..], r.env);
    }
  }

  /** A stray name leaves a literal in the reduced expression. */
  lemma {:induction false} StrayLeavesLiteral(e: Expr, env: Env)
    requires NormalEnv(env) && !NoStrayHash(e, env.vconsts)
    requires PfReduce(e, env).out.Val? && ToExpr(PfReduce(e, env).out.v).Some?
    ensures HasLiteral(ToExpr(PfReduce(e, env).out.v).value)
    decreases e
  {
    match e
    case Bracketed(inner) => StrayLeavesLiteral(inner, env);
    case Unary(_, operand) => StrayLeavesLiteral(operand, env);
    case Binary(a, _, b) =>
      ReductionGrowsPool(a, env);
      if !NoStrayHash(a, env.vconsts) {
        StrayLeavesLiteral(a, env);
      } else {
        StrayLeavesLiteral(b, PfReduce(a, env).env);
      }
    case Call(_, args) => StrayArgsLeaveLiteral(args, env);
    case Member(root, field) =>
      if PfReduce(root, env).out.v.Struct? {
        StructComesFromVariable(root, env);
      } else {
        StrayLeavesLiteral(root, env);
      }
    case _ =>
  }

  lemma {:induction false} StrayArgsLeaveLiteral(args: seq<Expr>, env: Env)
    requires NormalEnv(env) && ReduceArgs(args, env).args.Ok?
    requires exists i :: 0 <= i < |args| && !NoStrayHash(args[i], env.vconsts)
    ensures exists i :: 0 <= i < |ReduceArgs(args, env).args.value| && HasLiteral(ReduceArgs(args, env).args.value[i])
    decreases args
  {
    var r := PfReduce(args[0], env);
    ReductionGrowsPool(args[0], env);
    var xs, rest := ReduceArgs(args, env).args.value, ReduceArgs(args[1..], r.env).args.value;
    if !NoStrayHash(args[0], env.vconsts) {
      StrayLeavesLiteral(args[0], env);
      assert HasLiteral(xs[0]);
    } else {
      var i :| 0 <= i < |args| && !NoStrayHash(args[i], env.vconsts);
      assert args[1..][i - 1] == args[i];
      StrayArgsLeaveLiteral(args[1..], r.env);
      var j :| 0 <= j < |rest| && HasLiteral(rest[j]);
      assert xs[j + 1] == rest[j];
    }
  }

  /** Under bindings in parameter form, reducing again gives an equal expression if and only if no name in the
      original is taken for a literal. */
  lemma ReductionIsIdempotentExactlyWhen(e: Expr, env: Env)
    requires NormalEnv(env) && PfReduce(e, env).out.Val? && ToExpr(PfReduce(e, env).out.v).Some?
    ensures ReducesToFixed(e, env) <==> NoStrayHash(e, env.vconsts)
  {
    if NoStrayHash(e, env.vconsts) {
      ReductionIsIdempotent(e, env);
    } else {
      StrayLeavesLiteral(e, env);
      var r := PfReduce(e, env);
      ReductionGrowsPool(e, env);
      if PfReduce(ToExpr(r.out.v).value, r.env).out.Val? {
        LiteralIsNotFixed(ToExpr(r.out.v).value, r.env);
      }
    }
  }

  /** The stray name "#x" reduces to a literal, which in turn reduces to a pointer. */
  lemma StrayHashIsNotFixed()
    ensures PfReduce(Identifier("#x"), Env(map[], {}, [])).out == Val(Literal("#x"))
    ensures PfReduce(StringLiteral("#x"), Env(map[], {}, [])).out == Val(Ptr("static:0"))
    ensures !ReducesToFixed(Identifier("#x"), Env(map[], {}, []))
  {
    assert StaticName(0) == "static:" + "0" == "static:0";
  }
}
