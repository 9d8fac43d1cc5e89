/** When the verify loop ends (src/path/path.c, src/ast/function/function.c): a measure that every step decreases
    unless a path stands at a condition whose value is a pointer, and what happens when one does. */
module Termination {
  import opened Util
  import opened Ast
  import opened Reduce
  import opened Props
  import opened Execution
  import opened Paths

  // ---- the conditions of a program ----

  /** A condition under its negations. */
  function Core(e: Expr): Expr
    decreases e
  {
    if IsNot(e) then Core(e.operand) else e
  }

  predicate PointerName(e: Expr) {
    e.Identifier? && PTR <= e.name
  }

  /** The conditions of a statement that are not pointers reduce to negations, to symbols in u, or to constants. */
  ghost predicate CondsFrom(stmt: Stmt, env: Env, u: set<Expr>)
    decreases stmt
  {
    match stmt
    case Sel(cond, body, nest) =>
      && ReducesInto(PfReduce(cond, env).out, u)
      && CondsFrom(body, env, u) && (nest.Some? ==> CondsFrom(nest.value, env, u))
    case _ => true
  }

  ghost predicate ReducesInto(out: Outcome, u: set<Expr>) {
    out.Val? && out.v.Sync? ==> IsNot(out.v.e) || out.v.e in u
  }

  /** No symbolic condition of the statement is the name of a pointer, or its negation. */
  ghost predicate CondsApart(stmt: Stmt, env: Env)
    decreases stmt
  {
    match stmt
    case Sel(cond, body, nest) =>
      && SymbolApart(PfReduce(cond, env).out)
      && CondsApart(body, env) && (nest.Some? ==> CondsApart(nest.value, env))
    case _ => true
  }

  ghost predicate SymbolApart(out: Outcome) {
    out.Val? && out.v.Sync? ==> !PointerName(Core(out.v.e))
  }

  ghost predicate PointersApart<W(!new)>(p: Program<W>, ok: Env -> bool) {
    forall abstract_, i, env :: ok(env) && 0 <= i < |BlockOf(p, abstract_).stmts| ==>
      CondsApart(BlockOf(p, abstract_).stmts[i], env)
  }

  // ---- names without a pointer's prefix ----

  /** No name in e that reduction looks up is spelled like a rendered pointer; in the source no name can be. */
  predicate PlainExpr(e: Expr)
    decreases e
  {
    match e
    case Identifier(name) => !(PTR <= name)
    case Bracketed(inner) => PlainExpr(inner)
    case Unary(_, operand) => PlainExpr(operand)
    case Member(root, _) => PlainExpr(root)
    case _ => true
  }

  /** The value is no symbol, or negation of a symbol, with a pointer's name, and has no such member. */
  predicate PlainValue(v: Value)
    decreases v
  {
    match v
    case Sync(e) => !PointerName(Core(e))
    case Struct(members) =>
      forall i :: 0 <= i < |members| && members[i].value.Some? ==> PlainValue(members[i].value.value)
    case _ => true
  }

  ghost predicate PlainEnv(env: Env) {
    && (forall c :: c in env.vconsts ==> !(PTR <= c))
    && forall x :: x in env.vars && env.vars[x].Some? ==> PlainValue(env.vars[x].value)
  }

  predicate PlainStmt(stmt: Stmt)
    decreases stmt
  {
    match stmt
    case Sel(cond, body, nest) => PlainExpr(cond) && PlainStmt(body) && (nest.Some? ==> PlainStmt(nest.value))
    case _ => true
  }

  lemma {:induction false} PlainReduces(e: Expr, env: Env)
    requires PlainExpr(e) && PlainEnv(env)
    ensures var out := PfReduce(e, env).out; out.Val? ==> PlainValue(out.v)
    decreases e
  {
    match e
    case Bracketed(inner) => PlainReduces(inner, env);
    case Unary(_, operand) => PlainReduces(operand, env);
    case Member(root, field) =>
      PlainReduces(root, env);
      var r := PfReduce(root, env).out;
      if r.Val? && r.v.Struct? && Lookup(r.v.members, field).Some? {
        assert Lookup(r.v.members, field) == Some(r.v.members[Find(r.v.members, field)].value);
      }
    case _ =>
  }

  lemma {:induction false} PlainStmtIsApart(stmt: Stmt, env: Env)
    requires PlainStmt(stmt) && PlainEnv(env)
    ensures CondsApart(stmt, env)
    decreases stmt
  {
    match stmt
    case Sel(cond, body, nest) =>
      PlainReduces(cond, env);
      PlainStmtIsApart(body, env);
      if nest.Some? {
        PlainStmtIsApart(nest.value, env);
      }
    case _ =>
  }

  /** Where no name and no binding is spelled like a rendered pointer, symbols and pointers are told apart. */
  lemma PlainIsApart<W(!new)>(p: Program<W>, ok: Env -> bool)
    requires forall env :: ok(env) ==> PlainEnv(env)
    requires forall abstract_, i :: 0 <= i < |BlockOf(p, abstract_).stmts| ==> PlainStmt(BlockOf(p, abstract_).stmts[i])
    ensures PointersApart(p, ok)
  {
    forall abstract_, i, env | ok(env) && 0 <= i < |BlockOf(p, abstract_).stmts|
      ensures CondsApart(BlockOf(p, abstract_).stmts[i], env)
    {
      PlainStmtIsApart(BlockOf(p, abstract_).stmts[i], env);
    }
  }

  /** Reduced conditions come from a finite set. */
  ghost predicate Finite<W(!new)>(p: Program<W>, ok: Env -> bool, u: set<Expr>) {
    forall abstract_, i, env :: ok(env) && 0 <= i < |BlockOf(p, abstract_).stmts| ==>
      CondsFrom(BlockOf(p, abstract_).stmts[i], env, u)
  }

  /** Executing the statement comes to a condition whose value is a pointer. */
  predicate AsksPointer(stmt: Stmt, env: Env, props: seq<Expr>)
    decreases stmt
  {
    match stmt
    case Sel(cond, body, nest) =>
      var r := PfReduce(cond, env);
      if r.out.Val? && r.out.v.Ptr? then true
      else
        (match SelDecide(cond, env, props)
         case True => AsksPointer(body, r.env, props)
         case False => nest.Some? && AsksPointer(nest.value, r.env, props)
         case _ => false)
    case _ => false
  }

  predicate ExecAtPointer<W>(p: Program<W>, abstract_: bool, x: Exec<W>)
    requires CounterOk(x.pc, BlockOf(p, abstract_))
  {
    x.pc.s.Stmts? && AsksPointer(BlockOf(p, abstract_).stmts[x.pc.index], x.env, x.props)
  }

  /** Some path of the tree stands at a condition whose value is a pointer. */
  predicate AtPointer<W>(p: Program<W>, t: Tree<W>)
    requires TreeOk(p, t)
    decreases t
  {
    match t
    case Leaf(_, phase, abs, act) =>
      (phase.Abstract? && ExecAtPointer(p, true, abs.value)) || (phase.Actual? && ExecAtPointer(p, false, act.value))
    case Fork(_, a, b) => AtPointer(p, a) || AtPointer(p, b)
  }

  // ---- the measure ----

  /** The conditions still undecided. */
  ghost function Open(u: set<Expr>, props: seq<Expr>): set<Expr> {
    set e | e in u && e !in props && Not(e) !in props
  }

  function Pow3(n: nat): nat {
    if n == 0 then 1 else 3 * Pow3(n - 1)
  }

  ghost function Measure<W>(p: Program<W>, u: set<Expr>, t: Tree<W>): nat
    requires TreeOk(p, t)
    decreases t
  {
    match t
    case Leaf(assumed, phase, abs, act) => LeafMeasure(p, u, phase, abs, act)
    case Fork(_, a, b) => Measure(p, u, a) + Measure(p, u, b)
  }

  ghost function LeafMeasure<W>(p: Program<W>, u: set<Expr>, phase: Phase, abs: Option<Exec<W>>,
                                act: Option<Exec<W>>): nat
    requires LeafOk(p, phase, abs, act)
  {
    match phase
    case Uninit => Weight(|u|, Remaining(CounterInit(p.abs), p.abs) + Remaining(CounterInit(p.body), p.body) + 3)
    case Abstract =>
      Weight(|Open(u, abs.value.props)|, Remaining(abs.value.pc, p.abs) + Remaining(CounterInit(p.body), p.body) + 2)
    case Halfway => Weight(|Open(u, abs.value.props)|, Remaining(CounterInit(p.body), p.body) + 2)
    case Actual => Weight(|Open(u, act.value.props)|, Remaining(act.value.pc, p.body) + 1)
    case Audit => 1
    case Ended => 0
  }

  /** A path with n open conditions and r steps ahead outweighs the two it may split into. */
  function Weight(n: nat, r: nat): nat {
    Pow3(n) * (r + 1)
  }

  lemma {:induction false} Pow3Positive(n: nat)
    ensures Pow3(n) > 0
  {
    if n > 0 {
      Pow3Positive(n - 1);
    }
  }

  lemma {:induction false} Pow3Grows(m: nat, n: nat)
    requires m <= n
    ensures Pow3(m) <= Pow3(n)
    decreases n
  {
    if m < n {
      Pow3Grows(m, n - 1);
    }
  }

  lemma WeightFalls(m: nat, n: nat, r: nat, s: nat)
    requires m <= n && r < s
    ensures Weight(m, r) < Weight(n, s)
  {
    Pow3Positive(n);
    Pow3Grows(m, n);
    hide Pow3;
    ScaledUp(Pow3(m), Pow3(n), r + 1);
    ScaledUp(r + 2, s + 1, Pow3(n));
  }

  lemma ScaledUp(a: nat, b: nat, c: nat)
    requires a <= b
    ensures a * c <= b * c
  {
    assert b * c - a * c == (b - a) * c;
  }

  lemma TwoWeighLess(m: nat, n: nat, r: nat)
    requires m < n
    ensures Weight(m, r) + Weight(m, r) < Weight(n, r)
  {
    Pow3Positive(m);
    Pow3Grows(m, n - 1);
    assert 3 * Pow3(m) <= Pow3(n);
    assert 2 * (Pow3(m) * (r + 1)) < 3 * (Pow3(m) * (r + 1));
    assert 3 * (Pow3(m) * (r + 1)) == 3 * Pow3(m) * (r + 1) <= Pow3(n) * (r + 1);
  }

  /** Away from pointers a split is on a symbol that the propositions do not decide. */
  lemma {:induction false} SplitIsUndecided<W(!new)>(p: Program<W>, ok: Env -> bool, abstract_: bool, stmt: Stmt,
                                                     x: Exec<W>)
    requires Governed(p, ok) && ok(x.env) && Coherent(x.props) && CondsOk(stmt, x.env.vconsts)
    requires !AsksPointer(stmt, x.env, x.props)
    ensures var r := ExecStmt(p, abstract_, stmt, x);
            r.Split? ==> !IsNot(r.cond) && r.cond !in x.props && Not(r.cond) !in x.props
    decreases stmt
  {
    match stmt
    case Sel(cond, body, nest) =>
      ReductionGrowsPool(cond, x.env);
      var next := x.(env := PfReduce(cond, x.env).env);
      assert Later(x.env, next.env);
      var d := SelDecide(cond, x.env, x.props);
      if d.True? {
        SplitIsUndecided(p, ok, abstract_, body, next);
      } else if d.False? && nest.Some? {
        SplitIsUndecided(p, ok, abstract_, nest.value, next);
      } else if d.Undecided? {
        ReducesToNormal(cond, x.env);
        UndecidedSymbol(PfReduce(cond, x.env).out.v, x.props);
      }
    case _ =>
  }

  lemma UndecidedSymbol(v: Value, props: seq<Expr>)
    requires Coherent(props) && Decide(v, props).Undecided? && !v.Ptr? && !v.Literal?
    ensures v.Sync? && Decide(v, props).cond == v.e && !IsNot(v.e) && v.e !in props && Not(v.e) !in props
  {
    if !IsNot(v.e) {
      DecisionReflectsProps(v.e, props);
    }
  }

  lemma {:induction false} SplitIsFrom<W(!new)>(p: Program<W>, ok: Env -> bool, u: set<Expr>, abstract_: bool,
                                                stmt: Stmt, x: Exec<W>)
    requires Governed(p, ok) && ok(x.env) && CondsOk(stmt, x.env.vconsts) && !AsksPointer(stmt, x.env, x.props)
    requires forall env :: ok(env) ==> CondsFrom(stmt, env, u)
    ensures var r := ExecStmt(p, abstract_, stmt, x); r.Split? && !IsNot(r.cond) ==> r.cond in u
    decreases stmt
  {
    match stmt
    case Sel(cond, body, nest) =>
      ReductionGrowsPool(cond, x.env);
      var next := x.(env := PfReduce(cond, x.env).env);
      assert Later(x.env, next.env) && CondsFrom(stmt, x.env, u);
      var d := SelDecide(cond, x.env, x.props);
      if d.True? {
        assert forall env :: ok(env) ==> CondsFrom(stmt, env, u) && CondsFrom(body, env, u);
        SplitIsFrom(p, ok, u, abstract_, body, next);
      } else if d.False? && nest.Some? {
        assert forall env :: ok(env) ==> CondsFrom(stmt, env, u) && CondsFrom(nest.value, env, u);
        SplitIsFrom(p, ok, u, abstract_, nest.value, next);
      } else if d.Undecided? {
        ReducesToNormal(cond, x.env);
      }
    case _ =>
  }

  lemma SplitIsOpen<W(!new)>(p: Program<W>, ok: Env -> bool, u: set<Expr>, abstract_: bool, stmt: Stmt, x: Exec<W>)
    requires Governed(p, ok) && ok(x.env) && Coherent(x.props) && CondsOk(stmt, x.env.vconsts)
    requires !AsksPointer(stmt, x.env, x.props) && forall env :: ok(env) ==> CondsFrom(stmt, env, u)
    ensures var r := ExecStmt(p, abstract_, stmt, x); r.Split? ==> r.cond in Open(u, x.props) && !IsNot(r.cond)
  {
    SplitIsUndecided(p, ok, abstract_, stmt, x);
    SplitIsFrom(p, ok, u, abstract_, stmt, x);
  }

  lemma OpenShrinks(u: set<Expr>, props: seq<Expr>, c: Expr, value: bool)
    requires c in Open(u, props)
    ensures |Open(u, props + [Inverted(c, !value)])| < |Open(u, props)|
  {
    var more := props + [Inverted(c, !value)];
    assert more[|props|] == Inverted(c, !value);
    assert forall e :: e in props ==> e in more;
    assert Open(u, more) <= Open(u, props) - {c};
    SubsetIsSmaller(Open(u, more), Open(u, props) - {c});
  }

  lemma {:induction false} SubsetIsSmaller<T>(a: set<T>, b: set<T>)
    requires a <= b
    ensures |a| <= |b|
    decreases a
  {
    if x :| x in a {
      SubsetIsSmaller(a - {x}, b - {x});
    }
  }

  /** The steps a path in the abstract or in the body has ahead. */
  ghost function Ahead<W>(p: Program<W>, phase: Phase, pc: Counter): nat
    requires phase.Abstract? ==> CounterOk(pc, p.abs)
    requires !phase.Abstract? ==> CounterOk(pc, p.body)
  {
    if phase.Abstract? then Remaining(pc, p.abs) + Remaining(CounterInit(p.body), p.body) + 2
    else Remaining(pc, p.body) + 1
  }

  lemma WeightGrows(m: nat, n: nat, r: nat)
    requires m <= n
    ensures Weight(m, r) <= Weight(n, r)
  {
    Pow3Grows(m, n);
    assert Pow3(m) * (r + 1) <= Pow3(n) * (r + 1);
  }

  /** A child of a split has one open condition less, or is at its end. */
  lemma ChildMeasure<W(!new)>(p: Program<W>, u: set<Expr>, assumed: seq<Expr>, phase: Phase,
                              abs: Option<Exec<W>>, act: Option<Exec<W>>, c: Expr, value: bool)
    requires phase.Abstract? || phase.Actual?
    requires LeafOk(p, phase, abs, act)
    requires var x := (if phase.Abstract? then abs.value else act.value);
             Normal(c, x.env.vconsts) && !c.Constant? && !IsNot(c) && c in Open(u, x.props)
    ensures var x := (if phase.Abstract? then abs.value else act.value);
            var r := CopyWithCond(assumed, phase, abs, act, Inverted(c, !value));
            r.Ok? ==> TreeOk(p, r.value)
                      && Measure(p, u, r.value) <= Weight(|Open(u, x.props)| - 1, Ahead(p, phase, x.pc))
  {
    var x := if phase.Abstract? then abs.value else act.value;
    OpenShrinks(u, x.props, c, value);
    AssumeInstallsNormal(Inverted(c, !value), true, x.env, x.props);
    assert Assumed(Inverted(c, !value), true) == Inverted(c, !value);
    WeightGrows(|Open(u, x.props + [Inverted(c, !value)])|, |Open(u, x.props)| - 1, Ahead(p, phase, x.pc));
  }

  lemma SplitMeasure<W(!new)>(p: Program<W>, ok: Env -> bool, u: set<Expr>, assumed: seq<Expr>, phase: Phase,
                              abs: Option<Exec<W>>, act: Option<Exec<W>>, c: Expr)
    requires phase.Abstract? || phase.Actual?
    requires Inv(p, ok, Leaf(assumed, phase, abs, act))
    requires var x := (if phase.Abstract? then abs.value else act.value);
             Normal(c, x.env.vconsts) && !c.Constant? && !IsNot(c) && c in Open(u, x.props)
    ensures var x := (if phase.Abstract? then abs.value else act.value);
            var r := SplitPath(assumed, phase, abs, act, c);
            r.Ok? ==> TreeOk(p, r.value) && Measure(p, u, r.value) < Weight(|Open(u, x.props)|, Ahead(p, phase, x.pc))
  {
    var x := if phase.Abstract? then abs.value else act.value;
    ChildMeasure(p, u, assumed, phase, abs, act, c, true);
    ChildMeasure(p, u, assumed, phase, abs, act, c, false);
    TwoWeighLess(|Open(u, x.props)| - 1, |Open(u, x.props)|, Ahead(p, phase, x.pc));
  }

  lemma OpenOfMore(u: set<Expr>, props: seq<Expr>)
    ensures |Open(u, props)| <= |u|
  {
    SubsetIsSmaller(Open(u, props), u);
  }

  lemma InitMeasure<W(!new)>(p: Program<W>, u: set<Expr>, assumed: seq<Expr>)
    ensures var r := InitAbstract(p, assumed);
            r.Ok? ==> TreeOk(p, r.value) && Measure(p, u, r.value) < LeafMeasure(p, u, Uninit, None, None)
  {
    if p.initAbstract.Ok? {
      OpenOfMore(u, p.initAbstract.value.2);
      var r := Remaining(CounterInit(p.abs), p.abs) + Remaining(CounterInit(p.body), p.body) + 2;
      WeightFalls(|Open(u, p.initAbstract.value.2)|, |u|, r, r + 1);
    }
  }

  lemma SwitchMeasure<W(!new)>(p: Program<W>, u: set<Expr>, assumed: seq<Expr>, x: Exec<W>)
    ensures var r := InitActual(p, assumed, x);
            r.Ok? ==> TreeOk(p, r.value) && Measure(p, u, r.value)
                                            < Weight(|Open(u, x.props)|, Remaining(CounterInit(p.body), p.body) + 2)
  {
    var n, r := |Open(u, x.props)|, Remaining(CounterInit(p.body), p.body);
    WeightFalls(n, n, r + 1, r + 2);
  }

  /** A step of the abstract, or from it into the body. */
  lemma AbstractStepMeasure<W(!new)>(p: Program<W>, ok: Env -> bool, u: set<Expr>, assumed: seq<Expr>, x: Exec<W>)
    requires Governed(p, ok) && Finite(p, ok, u) && p.initAbstract.Ok?
    requires LiveExec(p, ok, assumed, x) && CounterOk(x.pc, p.abs) && !ExecAtPointer(p, true, x)
    ensures var r := StepAbstract(p, assumed, x);
            r.Ok? ==> TreeOk(p, r.value)
                      && Measure(p, u, r.value) < Weight(|Open(u, x.props)|, Ahead(p, Abstract, x.pc))
  {
    var n := |Open(u, x.props)|;
    if x.pc.s.AtEnd? {
      SwitchMeasure(p, u, assumed, x);
    } else {
      StepExecKeeps(p, ok, true, assumed, x);
      var s := StepExec(p, true, x);
      if s.Done? {
        WeightFalls(n, n, Ahead(p, Abstract, s.x.pc), Ahead(p, Abstract, x.pc));
      } else if s.Split? {
        SplitIsOpen(p, ok, u, true, p.abs.stmts[x.pc.index], x);
        SplitMeasure(p, ok, u, assumed, Abstract, Some(s.x), None, s.cond);
      }
    }
  }

  lemma ActualStepMeasure<W(!new)>(p: Program<W>, ok: Env -> bool, u: set<Expr>, assumed: seq<Expr>,
                                   abs: Exec<W>, x: Exec<W>)
    requires Governed(p, ok) && Finite(p, ok, u) && p.initAbstract.Ok?
    requires LiveExec(p, ok, assumed, x) && CounterOk(x.pc, p.body) && !ExecAtPointer(p, false, x)
    ensures var r := StepActual(p, assumed, abs, x);
            r.Ok? ==> TreeOk(p, r.value) && Measure(p, u, r.value) < Weight(|Open(u, x.props)|, Ahead(p, Actual, x.pc))
  {
    var n := |Open(u, x.props)|;
    if x.pc.s.AtEnd? {
      Pow3Positive(n);
    } else {
      StepExecKeeps(p, ok, false, assumed, x);
      var s := StepExec(p, false, x);
      if s.Done? {
        WeightFalls(n, n, Ahead(p, Actual, s.x.pc), Ahead(p, Actual, x.pc));
      } else if s.Split? {
        SplitIsOpen(p, ok, u, false, p.body.stmts[x.pc.index], x);
        SplitMeasure(p, ok, u, assumed, Actual, Some(abs), Some(s.x), s.cond);
      }
    }
  }

  /** When symbolic conditions come from a finite set, every step with no path at a pointer brings the verify loop
      nearer to its end: a split leaves both children fewer undecided conditions, and any other step moves the
      phase or the program counter forward. */
  lemma {:induction false} StepDecreases<W(!new)>(p: Program<W>, ok: Env -> bool, u: set<Expr>, t: Tree<W>)
    requires Governed(p, ok) && Finite(p, ok, u) && Inv(p, ok, t) && TreeOk(p, t) && !AllEnded(t) && !AtPointer(p, t)
    ensures var r := Step(p, t); r.Ok? ==> TreeOk(p, r.value) && Measure(p, u, r.value) < Measure(p, u, t)
    decreases t
  {
    match t
    case Leaf(assumed, phase, abs, act) => LeafStepDecreases(p, ok, u, t);
    case Fork(_, a, b) =>
      if !AllEnded(a) {
        StepDecreases(p, ok, u, a);
      }
      if !AllEnded(b) {
        StepDecreases(p, ok, u, b);
      }
  }

  lemma LeafStepDecreases<W(!new)>(p: Program<W>, ok: Env -> bool, u: set<Expr>, t: Tree<W>)
    requires Governed(p, ok) && Finite(p, ok, u) && Inv(p, ok, t) && t.Leaf? && !t.phase.Ended? && !AtPointer(p, t)
    ensures var r := Step(p, t); r.Ok? ==> TreeOk(p, r.value) && Measure(p, u, r.value) < Measure(p, u, t)
  {
    hide Governed, Finite, Weight, Open;
    match t.phase
    case Uninit => InitMeasure(p, u, t.assumed);
    case Abstract => AbstractStepMeasure(p, ok, u, t.assumed, t.abs.value);
    case Halfway => SwitchMeasure(p, u, t.assumed, t.abs.value);
    case Actual => ActualStepMeasure(p, ok, u, t.assumed, t.abs.value, t.act.value);
    case _ =>
  }

  // ---- no split is contradictory ----

  /** Every path that has ended was audited; none was ended by a contradiction. */
  ghost predicate EndedByAudit<W>(p: Program<W>, t: Tree<W>)
    decreases t
  {
    match t
    case Leaf(assumed, phase, abs, act) => phase.Ended? ==> Audited(p, assumed, abs, act)
    case Fork(_, a, b) => EndedByAudit(p, a) && EndedByAudit(p, b)
  }

  lemma UndecidedIsNotContradicted(props: seq<Expr>, c: Expr, invert: bool)
    requires c !in props && Not(c) !in props && !IsNot(c) && Shallow(props)
    ensures !Contradicts(props, Inverted(c, invert))
  {
  }

  lemma SplitStaysLive<W(!new)>(p: Program<W>, ok: Env -> bool, assumed: seq<Expr>, phase: Phase,
                                abs: Option<Exec<W>>, act: Option<Exec<W>>, c: Expr)
    requires phase.Abstract? || phase.Actual?
    requires Inv(p, ok, Leaf(assumed, phase, abs, act))
    requires var x := (if phase.Abstract? then abs.value else act.value);
             Normal(c, x.env.vconsts) && !c.Constant? && !IsNot(c) && c !in x.props && Not(c) !in x.props
    ensures var r := SplitPath(assumed, phase, abs, act, c); r.Ok? ==> EndedByAudit(p, r.value)
  {
    var x := if phase.Abstract? then abs.value else act.value;
    AssumeInstallsNormal(c, true, x.env, x.props);
    AssumeInstallsNormal(Not(c), true, x.env, x.props);
    UndecidedIsNotContradicted(x.props, c, false);
    UndecidedIsNotContradicted(x.props, c, true);
    assert Assumed(c, true) == Inverted(c, false) && Assumed(Not(c), true) == Inverted(c, true);
  }

  /** With no path at a pointer no path is ended by a contradiction. */
  lemma {:induction false} StepStaysAudited<W(!new)>(p: Program<W>, ok: Env -> bool, t: Tree<W>)
    requires Governed(p, ok) && Inv(p, ok, t) && TreeOk(p, t) && !AllEnded(t) && !AtPointer(p, t) && EndedByAudit(p, t)
    ensures var r := Step(p, t); r.Ok? ==> EndedByAudit(p, r.value)
    decreases t
  {
    match t
    case Leaf(assumed, phase, abs, act) =>
      StepKeepsInv(p, ok, t);
      if phase.Abstract? && abs.value.pc.s.Stmts? {
        SplitOfStaysLive(p, ok, true, assumed, phase, abs, act, abs.value);
      } else if phase.Actual? && act.value.pc.s.Stmts? {
        SplitOfStaysLive(p, ok, false, assumed, phase, abs, act, act.value);
      }
    case Fork(_, a, b) =>
      if !AllEnded(a) {
        StepStaysAudited(p, ok, a);
      }
      if !AllEnded(b) {
        StepStaysAudited(p, ok, b);
      }
  }

  lemma SplitOfStaysLive<W(!new)>(p: Program<W>, ok: Env -> bool, abstract_: bool, assumed: seq<Expr>, phase: Phase,
                                  abs: Option<Exec<W>>, act: Option<Exec<W>>, x: Exec<W>)
    requires Governed(p, ok) && Inv(p, ok, Leaf(assumed, phase, abs, act))
    requires if abstract_ then phase.Abstract? && abs == Some(x) else phase.Actual? && act == Some(x)
    requires x.pc.s.Stmts? && !ExecAtPointer(p, abstract_, x)
    ensures var s := StepExec(p, abstract_, x);
            s.Split? ==>
              var r := if abstract_ then SplitPath(assumed, phase, Some(s.x), act, s.cond)
                       else SplitPath(assumed, phase, abs, Some(s.x), s.cond);
              r.Ok? ==> EndedByAudit(p, r.value)
  {
    var s := StepExec(p, abstract_, x);
    StepExecKeeps(p, ok, abstract_, assumed, x);
    SplitIsUndecided(p, ok, abstract_, BlockOf(p, abstract_).stmts[x.pc.index], x);
    if s.Split? {
      if abstract_ {
        SplitStaysLive(p, ok, assumed, phase, Some(s.x), act, s.cond);
      } else {
        SplitStaysLive(p, ok, assumed, phase, abs, Some(s.x), s.cond);
      }
    }
  }

  // ---- a path at a pointer never ends ----

  /** An answer that is not about a pointer survives the assumption of a pointer. */
  lemma DecisionSurvivesPointer(v: Value, props: seq<Expr>, s: Expr)
    requires v.Sync? ==> !PointerName(Core(v.e))
    requires PointerName(Core(s)) && Coherent(props + [s])
    requires Decide(v, props).True? || Decide(v, props).False?
    ensures Decide(v, props + [s]) == Decide(v, props)
  {
    if v.Sync? {
      if IsNot(v.e) {
        var all := props + [s];
        NegationIsAlwaysDecided(v.e.operand, props);
        NegationIsAlwaysDecided(v.e.operand, all);
        assert v.e == Not(v.e.operand);
        assert Core(v.e.operand) == Core(v.e) == Core(Not(v.e));
        assert forall e :: e in all <==> e in props || e == s;
      } else {
        DecisionIsStable(v.e, props, [s]);
      }
    }
  }

  /** A statement that comes to a pointer asks for a split on its name, and would ask again after either side of
      the split has been assumed. */
  lemma {:induction false} AsksAgain<W(!new)>(p: Program<W>, ok: Env -> bool, abstract_: bool, stmt: Stmt,
                                              x: Exec<W>, s: Expr)
    requires Governed(p, ok) && ok(x.env) && (forall env :: ok(env) ==> CondsApart(stmt, env))
    requires AsksPointer(stmt, x.env, x.props) && PointerName(Core(s)) && Coherent(x.props + [s])
    ensures var r := ExecStmt(p, abstract_, stmt, x);
            r.Split? && PointerName(r.cond) && Later(x.env, r.x.env) && AsksPointer(stmt, r.x.env, x.props + [s])
    decreases stmt
  {
    match stmt
    case Sel(cond, body, nest) =>
      ReductionGrowsPool(cond, x.env);
      var red := PfReduce(cond, x.env);
      var next := x.(env := red.env);
      assert Later(x.env, next.env) && Later(next.env, next.env) && CondsApart(stmt, x.env);
      if red.out.v.Ptr? {
        ReductionIsStable(cond, x.env, next.env);
      } else {
        var branch := if SelDecide(cond, x.env, x.props).True? then body else nest.value;
        assert forall env :: ok(env) ==> CondsApart(stmt, env) && CondsApart(branch, env);
        AsksAgain(p, ok, abstract_, branch, next, s);
        var r := ExecStmt(p, abstract_, branch, next);
        ReductionIsStable(cond, x.env, r.x.env);
        DecisionSurvivesPointer(red.out.v, x.props, s);
      }
    case _ =>
  }

  /** At least one side of a split can be assumed. */
  lemma OneSideIsLive(props: seq<Expr>, c: Expr)
    requires Coherent(props) && Shallow(props) && !IsNot(c)
    ensures !Contradicts(props, c) || !Contradicts(props, Not(c))
  {
    if Contradicts(props, c) {
      var i :| 0 <= i < |props| && props[i] == Not(c);
      assert forall j :: 0 <= j < |props| ==> props[i] != Not(props[j]) && props[j] != Not(Not(c));
    }
  }

  /** The side s of a split on a pointer stands at the pointer again. */
  lemma SideStaysAtPointer<W(!new)>(p: Program<W>, ok: Env -> bool, abstract_: bool, assumed: seq<Expr>, phase: Phase,
                                    abs: Option<Exec<W>>, act: Option<Exec<W>>, x: Exec<W>, s: Expr)
    requires Governed(p, ok) && PointersApart(p, ok) && Inv(p, ok, Leaf(assumed, phase, abs, act))
    requires if abstract_ then phase.Abstract? && abs == Some(x) else phase.Actual? && act == Some(x)
    requires ExecAtPointer(p, abstract_, x) && !Contradicts(x.props, s)
    requires var c := ExecStmt(p, abstract_, BlockOf(p, abstract_).stmts[x.pc.index], x);
             c.Split? && PointerName(c.cond) && (s == c.cond || s == Not(c.cond))
    ensures var y := ExecStmt(p, abstract_, BlockOf(p, abstract_).stmts[x.pc.index], x).x;
            var r := if abstract_ then CopyWithCond(assumed, phase, Some(y), act, s)
                     else CopyWithCond(assumed, phase, abs, Some(y), s);
            r.Ok? ==> TreeOk(p, r.value) && AtPointer(p, r.value)
  {
    var stmt := BlockOf(p, abstract_).stmts[x.pc.index];
    InstallKeepsCoherent(x.props, s);
    ExecKeeps(p, ok, abstract_, stmt, x);
    AsksAgain(p, ok, abstract_, stmt, x, s);
    var y := ExecStmt(p, abstract_, stmt, x).x;
    AssumeInstallsNormal(s, true, y.env, y.props);
    assert Assumed(s, true) == s;
  }

  lemma ForkStaysAtPointer<W(!new)>(p: Program<W>, ok: Env -> bool, abstract_: bool, assumed: seq<Expr>, phase: Phase,
                                    abs: Option<Exec<W>>, act: Option<Exec<W>>, x: Exec<W>)
    requires Governed(p, ok) && PointersApart(p, ok) && Inv(p, ok, Leaf(assumed, phase, abs, act))
    requires if abstract_ then phase.Abstract? && abs == Some(x) else phase.Actual? && act == Some(x)
    requires ExecAtPointer(p, abstract_, x)
    ensures var s := StepExec(p, abstract_, x);
            s.Split? &&
            var r := if abstract_ then SplitPath(assumed, phase, Some(s.x), act, s.cond)
                     else SplitPath(assumed, phase, abs, Some(s.x), s.cond);
            r.Ok? ==> TreeOk(p, r.value) && AtPointer(p, r.value)
  {
    var stmt := BlockOf(p, abstract_).stmts[x.pc.index];
    SplitNamesPointer(p, ok, abstract_, stmt, x);
    StepExecKeeps(p, ok, abstract_, assumed, x);
    var s := StepExec(p, abstract_, x);
    OneSideIsLive(x.props, s.cond);
    var side := if Contradicts(x.props, s.cond) then Not(s.cond) else s.cond;
    SideStaysAtPointer(p, ok, abstract_, assumed, phase, abs, act, x, side);
    if abstract_ {
      SplitKeeps(p, ok, assumed, phase, Some(s.x), act, s.cond);
      CopyKeeps(p, ok, assumed, phase, Some(s.x), act, s.cond);
      CopyKeeps(p, ok, assumed, phase, Some(s.x), act, Not(s.cond));
    } else {
      SplitKeeps(p, ok, assumed, phase, abs, Some(s.x), s.cond);
      CopyKeeps(p, ok, assumed, phase, abs, Some(s.x), s.cond);
      CopyKeeps(p, ok, assumed, phase, abs, Some(s.x), Not(s.cond));
    }
  }

  lemma {:induction false} SplitNamesPointer<W(!new)>(p: Program<W>, ok: Env -> bool, abstract_: bool, stmt: Stmt,
                                                      x: Exec<W>)
    requires AsksPointer(stmt, x.env, x.props)
    ensures var r := ExecStmt(p, abstract_, stmt, x); r.Split? && PointerName(r.cond)
    decreases stmt
  {
    match stmt
    case Sel(cond, body, nest) =>
      var red := PfReduce(cond, x.env);
      if !red.out.v.Ptr? {
        SplitNamesPointer(p, ok, abstract_, if SelDecide(cond, x.env, x.props).True? then body else nest.value,
                          x.(env := red.env));
      }
    case _ =>
  }

  /** In the abstract and in the body alike, a step of a tree with a path at a pointer leaves a path at a pointer. */
  lemma {:induction false} StepStaysAtPointer<W(!new)>(p: Program<W>, ok: Env -> bool, t: Tree<W>)
    requires Governed(p, ok) && PointersApart(p, ok) && Inv(p, ok, t) && TreeOk(p, t) && AtPointer(p, t)
    ensures !AllEnded(t)
    ensures var r := Step(p, t); r.Ok? ==> TreeOk(p, r.value) && AtPointer(p, r.value)
    decreases t
  {
    if !AllEnded(t) {
      StepKeepsOk(p, t);
    }
    match t
    case Leaf(assumed, phase, abs, act) =>
      if phase.Abstract? {
        ForkStaysAtPointer(p, ok, true, assumed, phase, abs, act, abs.value);
      } else {
        ForkStaysAtPointer(p, ok, false, assumed, phase, abs, act, act.value);
      }
    case Fork(_, a, b) =>
      if AtPointer(p, a) {
        StepStaysAtPointer(p, ok, a);
      } else {
        StepStaysAtPointer(p, ok, b);
      }
  }

  lemma {:induction false} PointerNeverEnds<W(!new)>(p: Program<W>, ok: Env -> bool, t: Tree<W>, n: nat)
    requires Governed(p, ok) && PointersApart(p, ok) && Inv(p, ok, t) && TreeOk(p, t) && AtPointer(p, t)
    ensures After(p, t, n).Ok? ==> AtPointer(p, After(p, t, n).value) && !AllEnded(After(p, t, n).value)
    decreases n
  {
    hide Inv, Governed, PointersApart, AtPointer, Step, TreeOk;
    StepStaysAtPointer(p, ok, t);
    if n > 0 && Step(p, t).Ok? {
      StepKeepsInv(p, ok, t);
      PointerNeverEnds(p, ok, Step(p, t).value, n - 1);
    }
  }

  /** Without a pointer the loop ends: in a finished tree or with an error. */
  lemma {:induction false} EndsWithoutPointer<W(!new)>(p: Program<W>, ok: Env -> bool, u: set<Expr>, t: Tree<W>)
    returns (n: nat)
    requires Governed(p, ok) && Finite(p, ok, u) && Inv(p, ok, t) && TreeOk(p, t)
    requires forall n: nat :: After(p, t, n).Ok? ==> !AtPointer(p, After(p, t, n).value)
    ensures After(p, t, n).Ok? ==> AllEnded(After(p, t, n).value)
    decreases Measure(p, u, t)
  {
    assert After(p, t, 0) == Ok(t);
    if AllEnded(t) {
      return 0;
    }
    StepKeepsOk(p, t);
    StepKeepsInv(p, ok, t);
    StepDecreases(p, ok, u, t);
    if Step(p, t).Err? {
      return 1;
    }
    var next := Step(p, t).value;
    forall m: nat | After(p, next, m).Ok?
      ensures !AtPointer(p, After(p, next, m).value)
    {
      assert After(p, t, m + 1) == After(p, next, m);
    }
    var m := EndsWithoutPointer(p, ok, u, next);
    assert After(p, t, m + 1) == After(p, next, m);
    return m + 1;
  }

  /** The loop is at its end after n rounds. */
  ghost predicate EndedAfter<W>(p: Program<W>, n: nat) {
    After(p, Start(), n).Ok? && AllEnded(After(p, Start(), n).value)
  }

  /** After n rounds some path stands at a condition whose value is a pointer. */
  ghost predicate AtPointerAfter<W>(p: Program<W>, n: nat) {
    After(p, Start(), n).Ok? && AtPointer(p, After(p, Start(), n).value)
  }

  ghost predicate FailedAfter<W>(p: Program<W>, n: nat) {
    After(p, Start(), n).Err?
  }

  /** Some step of the run fails, or no path of it ever stands at a condition whose value is a pointer. */
  ghost predicate EscapesPointers<W>(p: Program<W>) {
    (exists n: nat :: FailedAfter(p, n)) || forall n: nat :: !AtPointerAfter(p, n)
  }

  /** For conditions that are pointers or come from a finite set the verify loop ends, in a finished tree or with an
      error, if and only if some step fails or no path of the run ever stands at a condition whose value is a
      pointer. */
  lemma LoopEndsExactlyWhen<W(!new)>(p: Program<W>, ok: Env -> bool, u: set<Expr>)
    requires Governed(p, ok) && PointersApart(p, ok) && Finite(p, ok, u)
    ensures (exists r :: Ends(p, r)) <==> EscapesPointers(p)
  {
    if EscapesPointers(p) {
      var m := LoopEndsAfter(p, ok, u);
      assert Ends(p, After(p, Start(), m));
    } else {
      var n: nat :| AtPointerAfter(p, n);
      forall r
        ensures !Ends(p, r)
      {
        if m: nat :| After(p, Start(), m) == r && (r.Ok? ==> AllEnded(r.value)) {
          assert !FailedAfter(p, m);
          PointerOutlasts(p, ok, n, m);
        }
      }
    }
  }

  /** How many rounds that takes at most. */
  lemma LoopEndsAfter<W(!new)>(p: Program<W>, ok: Env -> bool, u: set<Expr>) returns (n: nat)
    requires Governed(p, ok) && Finite(p, ok, u) && EscapesPointers(p)
    ensures EndedAfter(p, n) || FailedAfter(p, n)
  {
    if m: nat :| FailedAfter(p, m) {
      n := m;
    } else {
      forall m: nat | After(p, Start(), m).Ok?
        ensures !AtPointer(p, After(p, Start(), m).value)
      {
        assert !AtPointerAfter(p, m);
      }
      n := EndsWithoutPointer(p, ok, u, Start());
      assert !FailedAfter(p, n);
    }
  }

  /** A run that has a path at a pointer after n rounds has no end, before or after. */
  lemma PointerOutlasts<W(!new)>(p: Program<W>, ok: Env -> bool, n: nat, m: nat)
    requires Governed(p, ok) && PointersApart(p, ok) && After(p, Start(), n).Ok? && After(p, Start(), m).Ok?
    requires AtPointer(p, After(p, Start(), n).value)
    ensures !AllEnded(After(p, Start(), m).value)
  {
    hide Inv, Governed, PointersApart, AtPointer, Step;
    var t := After(p, Start(), n).value;
    StartKeepsInv(p, ok, n);
    StepStaysAtPointer(p, ok, t);
    if m >= n {
      AfterMore(p, Start(), n, m - n);
      PointerNeverEnds(p, ok, t, m - n);
    } else {
      AfterMore(p, Start(), m, n - m);
    }
  }

  /** When verification succeeds, every path of the finished tree passed the audit: none was ended by a
      contradiction. */
  lemma EveryPathIsAudited<W(!new)>(p: Program<W>, ok: Env -> bool, t: Tree<W>)
    requires Governed(p, ok) && PointersApart(p, ok) && Ends(p, Ok(t))
    ensures Inv(p, ok, t) && EndedByAudit(p, t)
  {
    var n: nat :| After(p, Start(), n) == Ok(t) && AllEnded(t);
    StartKeepsInv(p, ok, n);
    RunStaysAudited(p, ok, n, n);
  }

  lemma {:induction false} RunStaysAudited<W(!new)>(p: Program<W>, ok: Env -> bool, n: nat, m: nat)
    requires Governed(p, ok) && PointersApart(p, ok) && m <= n && After(p, Start(), n).Ok?
    requires AllEnded(After(p, Start(), n).value)
    ensures After(p, Start(), m).Ok? && EndedByAudit(p, After(p, Start(), m).value)
    decreases m
  {
    if m > 0 {
      hide Inv, Governed, PointersApart, AtPointer, Step, EndedByAudit, TreeOk;
      RunStaysAudited(p, ok, n, m - 1);
      var t := After(p, Start(), m - 1).value;
      StartKeepsInv(p, ok, m - 1);
      AfterOneMore(p, Start(), m - 1);
      AfterMore(p, Start(), m - 1, n - (m - 1));
      if AtPointer(p, t) {
        PointerNeverEnds(p, ok, t, n - (m - 1));
      }
      if !AllEnded(t) {
        StepStaysAudited(p, ok, t);
      }
    }
  }

  /** The loop goes on until then, and no longer. */
  lemma NotYetEnded<W>(p: Program<W>, end: nat, n: nat, t: Tree<W>)
    requires (EndedAfter(p, end) || FailedAfter(p, end)) && n <= end
    requires After(p, Start(), n) == Ok(t) && !AllEnded(t)
    ensures n < end && TreeOk(p, t) && After(p, Start(), n + 1) == Step(p, t)
  {
    AfterOneMore(p, Start(), n);
  }
}
