/** The tree of paths of a verification (src/path/path.c): the abstract and then the body are executed step by
    step, an undecidable condition splits the path in two, and every path is audited at its end. */
module Paths {
  import opened Util
  import opened Ast
  import opened Reduce
  import opened Props
  import opened Execution

  // ---- the tree of paths ----

  datatype Phase = Uninit | Abstract | Halfway | Actual | Audit | Ended

  /** A path, with the conditions its name records. */
  datatype Tree<W> =
    | Leaf(assumed: seq<Expr>, phase: Phase, abs: Option<Exec<W>>, act: Option<Exec<W>>)
    | Fork(assumed: seq<Expr>, onTrue: Tree<W>, onFalse: Tree<W>)

  /** path_atend */
  predicate AllEnded<W>(t: Tree<W>) {
    match t
    case Leaf(_, phase, _, _) => phase.Ended?
    case Fork(_, a, b) => AllEnded(a) && AllEnded(b)
  }

  /** path_copywithcond: the same path under one more assumption; a contradiction ends it at once. */
  function CopyWithCond<W>(assumed: seq<Expr>, phase: Phase, abs: Option<Exec<W>>, act: Option<Exec<W>>, cond: Expr)
    : Result<Tree<W>, Error>
    requires (phase.Abstract? && abs.Some?) || (phase.Actual? && act.Some?)
  {
    var x := if phase.Abstract? then abs.value else act.value;
    match Assume(cond, true, x.env, x.props)
    case Installed(props, env) =>
      var y := Some(x.(props := props, env := env));
      Ok(if phase.Abstract? then Leaf(assumed + [cond], phase, y, act) else Leaf(assumed + [cond], phase, abs, y))
    case Contradiction(env) =>
      var y := Some(x.(env := env));
      Ok(if phase.Abstract? then Leaf(assumed + [cond], Ended, y, act) else Leaf(assumed + [cond], Ended, abs, y))
    case AssumeCrashes => Err(Crash)
  }

  /** path_split */
  function SplitPath<W>(assumed: seq<Expr>, phase: Phase, abs: Option<Exec<W>>, act: Option<Exec<W>>, cond: Expr)
    : Result<Tree<W>, Error>
    requires (phase.Abstract? && abs.Some?) || (phase.Actual? && act.Some?)
  {
    match (CopyWithCond(assumed, phase, abs, act, cond), CopyWithCond(assumed, phase, abs, act, Not(cond)))
    case (Ok(a), Ok(b)) => Ok(Fork(assumed, a, b))
    case _ => Err(Crash)
  }

  predicate LeafOk<W>(p: Program<W>, phase: Phase, abs: Option<Exec<W>>, act: Option<Exec<W>>) {
    && (phase.Abstract? ==> abs.Some? && act.None? && CounterOk(abs.value.pc, p.abs))
    && (phase.Halfway? ==> abs.Some? && act.None?)
    && (phase.Actual? ==> abs.Some? && act.Some? && CounterOk(act.value.pc, p.body))
    && (phase.Audit? ==> abs.Some? && act.Some?)
  }

  predicate TreeOk<W>(p: Program<W>, t: Tree<W>) {
    match t
    case Leaf(_, phase, abs, act) => LeafOk(p, phase, abs, act)
    case Fork(_, a, b) => TreeOk(p, a) && TreeOk(p, b)
  }

  /** path_init_abstract */
  function InitAbstract<W>(p: Program<W>, assumed: seq<Expr>): Result<Tree<W>, Error> {
    match p.initAbstract
    case Ok(s) => Ok(Leaf(assumed, Abstract, Some(Exec(CounterInit(p.abs), s.0, s.1, s.2)), None))
    case Err(e) => Err(e)
  }

  /** path_init_actual: the body starts from the propositions the abstract ended with. */
  function InitActual<W>(p: Program<W>, assumed: seq<Expr>, abs: Exec<W>): Result<Tree<W>, Error> {
    match p.initActual(abs.props)
    case Ok(s) => Ok(Leaf(assumed, Actual, Some(abs), Some(Exec(CounterInit(p.body), s.0, s.1, abs.props))))
    case Err(e) => Err(e)
  }

  /** path_audit */
  function AuditPath<W>(p: Program<W>, assumed: seq<Expr>, abs: Exec<W>, act: Exec<W>): Result<Tree<W>, Error> {
    if p.audit(act, abs) then Ok(Leaf(assumed, Ended, Some(abs), Some(act))) else Err(UserError("audit"))
  }

  function StepAbstract<W>(p: Program<W>, assumed: seq<Expr>, abs: Exec<W>): Result<Tree<W>, Error>
    requires CounterOk(abs.pc, p.abs)
  {
    if abs.pc.s.AtEnd? then InitActual(p, assumed, abs)
    else
      match StepExec(p, true, abs)
      case Done(x) => Ok(Leaf(assumed, Abstract, Some(x), None))
      case Split(cond, x) => SplitPath(assumed, Abstract, Some(x), None, cond)
      case Failed(e) => Err(e)
  }

  function StepActual<W>(p: Program<W>, assumed: seq<Expr>, abs: Exec<W>, act: Exec<W>): Result<Tree<W>, Error>
    requires CounterOk(act.pc, p.body)
  {
    if act.pc.s.AtEnd? then AuditPath(p, assumed, abs, act)
    else
      match StepExec(p, false, act)
      case Done(x) => Ok(Leaf(assumed, Actual, Some(abs), Some(x)))
      case Split(cond, x) => SplitPath(assumed, Actual, Some(abs), Some(x), cond)
      case Failed(e) => Err(e)
  }

  /** path_step */
  function Step<W>(p: Program<W>, t: Tree<W>): Result<Tree<W>, Error>
    requires TreeOk(p, t) && !AllEnded(t)
    decreases t, 0
  {
    match t
    case Leaf(assumed, phase, abs, act) =>
      (match phase
       case Uninit => InitAbstract(p, assumed)
       case Abstract => StepAbstract(p, assumed, abs.value)
       case Halfway => InitActual(p, assumed, abs.value)
       case Actual => StepActual(p, assumed, abs.value, act.value)
       case Audit => AuditPath(p, assumed, abs.value, act.value)
       case Ended => Err(Crash))
    case Fork(assumed, a, b) =>
      match TryStep(p, a)
      case Err(e) => Err(e)
      case Ok(a') =>
        match TryStep(p, b)
        case Err(e) => Err(e)
        case Ok(b') => Ok(Fork(assumed, a', b'))
  }

  function TryStep<W>(p: Program<W>, t: Tree<W>): Result<Tree<W>, Error>
    requires TreeOk(p, t)
    decreases t, 1
  {
    if AllEnded(t) then Ok(t) else Step(p, t)
  }

  // ---- what the program must keep for reduction to be stable ----

  /** No condition of the statement has a name that would be taken for a literal. */
  predicate CondsOk(stmt: Stmt, vconsts: set<string>)
    decreases stmt
  {
    match stmt
    case Sel(cond, body, nest) =>
      NoStrayHash(cond, vconsts) && CondsOk(body, vconsts) && (nest.Some? ==> CondsOk(nest.value, vconsts))
    case _ => true
  }

  /** `ok` holds of every environment of a run: the bindings are in parameter form and the names of conditions
      starting with '#' are declared. */
  ghost predicate Governed<W(!new)>(p: Program<W>, ok: Env -> bool) {
    && (forall env :: ok(env) ==> NormalEnv(env))
    && (forall env, env' :: ok(env) && Later(env, env') ==> ok(env'))
    && (forall abstract_, i, env :: ok(env) && 0 <= i < |BlockOf(p, abstract_).stmts| ==>
          CondsOk(BlockOf(p, abstract_).stmts[i], env.vconsts))
    && (p.initAbstract.Ok? ==>
          ok(p.initAbstract.value.0) && Coherent(p.initAbstract.value.2) && Shallow(p.initAbstract.value.2))
    && (forall props :: p.initActual(props).Ok? ==> ok(p.initActual(props).value.0))
    && (forall abstract_, i, env, w :: ok(env) ==> ok(p.declare(abstract_, i, env, w).0))
    && forall abstract_, id, env, w :: ok(env) && p.run(abstract_, id, env, w).Ok? ==>
         ok(p.run(abstract_, id, env, w).value.0)
  }

  /** The condition of a split: in parameter form, and a pointer or a symbol the propositions do not decide. */
  ghost predicate SplitCond(c: Expr, vconsts: set<string>, props: seq<Expr>) {
    && Normal(c, vconsts) && !c.Constant?
    && (Decide(Sync(c), props).Undecided? || (c.Identifier? && PTR <= c.name))
  }

  /** Executing a statement leaves the propositions and the counter alone. */
  lemma {:induction false} ExecKeeps<W(!new)>(p: Program<W>, ok: Env -> bool, abstract_: bool, stmt: Stmt, x: Exec<W>)
    requires Governed(p, ok) && ok(x.env) && CondsOk(stmt, x.env.vconsts)
    ensures match ExecStmt(p, abstract_, stmt, x)
            case Done(y) => ok(y.env) && y.props == x.props && y.pc == x.pc
            case Split(c, y) => ok(y.env) && y.props == x.props && y.pc == x.pc && SplitCond(c, y.env.vconsts, y.props)
            case Failed(_) => true
    decreases stmt
  {
    match stmt
    case Sel(cond, body, nest) =>
      ReductionGrowsPool(cond, x.env);
      var next := x.(env := PfReduce(cond, x.env).env);
      assert Later(x.env, next.env);
      ExecKeeps(p, ok, abstract_, body, next);
      if nest.Some? {
        ExecKeeps(p, ok, abstract_, nest.value, next);
      }
      if PfReduce(cond, x.env).out.Val? {
        ReducesToNormal(cond, x.env);
      }
    case _ =>
  }

  // ---- the invariant of a path tree ----

  function Forms(assumed: seq<Expr>): (r: seq<Expr>)
    ensures |r| == |assumed| && forall i :: 0 <= i < |assumed| ==> r[i] == Assumed(assumed[i], true)
  {
    seq(|assumed|, i requires 0 <= i < |assumed| => Assumed(assumed[i], true))
  }

  /** The propositions a path starts with. */
  function Root<W>(p: Program<W>): seq<Expr> {
    if p.initAbstract.Ok? then p.initAbstract.value.2 else []
  }

  /** A live state: what it assumes is what the root assumed and what its splits added. */
  ghost predicate LiveExec<W(!new)>(p: Program<W>, ok: Env -> bool, assumed: seq<Expr>, x: Exec<W>) {
    && ok(x.env) && x.props == Root(p) + Forms(assumed)
    && Coherent(x.props) && Shallow(x.props)
  }

  /** No truth assignment meets the assumptions. */
  ghost predicate Impossible<W>(p: Program<W>, assumed: seq<Expr>) {
    forall sigma: Expr -> bool :: SatisfiesAll(sigma, Root(p)) ==> !SatisfiesAll(sigma, assumed)
  }

  /** The path was audited successfully at its end. */
  ghost predicate Audited<W>(p: Program<W>, assumed: seq<Expr>, abs: Option<Exec<W>>, act: Option<Exec<W>>) {
    abs.Some? && act.Some? && p.audit(act.value, abs.value) && act.value.props == Root(p) + Forms(assumed)
  }

  ghost predicate LeafInv<W(!new)>(p: Program<W>, ok: Env -> bool, assumed: seq<Expr>, phase: Phase,
                                   abs: Option<Exec<W>>, act: Option<Exec<W>>)
    requires LeafOk(p, phase, abs, act)
  {
    match phase
    case Uninit => assumed == []
    case Abstract => p.initAbstract.Ok? && LiveExec(p, ok, assumed, abs.value)
    case Halfway => p.initAbstract.Ok? && LiveExec(p, ok, assumed, abs.value)
    case Actual => p.initAbstract.Ok? && LiveExec(p, ok, assumed, act.value)
    case Audit => p.initAbstract.Ok? && LiveExec(p, ok, assumed, act.value)
    case Ended => p.initAbstract.Ok? && (Audited(p, assumed, abs, act) || Impossible(p, assumed))
  }

  /** The condition a fork was split on. */
  function ForkCond<W>(t: Tree<W>): Expr
    requires t.Fork? && |t.onTrue.assumed| > 0
  {
    t.onTrue.assumed[|t.onTrue.assumed| - 1]
  }

  ghost predicate Inv<W(!new)>(p: Program<W>, ok: Env -> bool, t: Tree<W>)
    decreases t
  {
    match t
    case Leaf(assumed, phase, abs, act) => LeafOk(p, phase, abs, act) && LeafInv(p, ok, assumed, phase, abs, act)
    case Fork(assumed, a, b) =>
      && |a.assumed| > 0 && a.assumed == assumed + [ForkCond(t)] && b.assumed == assumed + [Not(ForkCond(t))]
      && Inv(p, ok, a) && Inv(p, ok, b)
  }

  lemma {:induction false} InvIsOk<W(!new)>(p: Program<W>, ok: Env -> bool, t: Tree<W>)
    requires Inv(p, ok, t)
    ensures TreeOk(p, t)
    decreases t
  {
    if t.Fork? {
      InvIsOk(p, ok, t.onTrue);
      InvIsOk(p, ok, t.onFalse);
    }
  }

  // ---- every step keeps it ----

  lemma FormsSnoc(assumed: seq<Expr>, c: Expr)
    ensures Forms(assumed + [c]) == Forms(assumed) + [Assumed(c, true)]
  {
  }

  lemma FormsMean(sigma: Expr -> bool, assumed: seq<Expr>)
    ensures SatisfiesAll(sigma, Forms(assumed)) <==> SatisfiesAll(sigma, assumed)
  {
    forall i | 0 <= i < |assumed|
      ensures Satisfies(sigma, Forms(assumed)[i]) <==> Satisfies(sigma, assumed[i])
    {
      AssumedMeans(sigma, assumed[i], true);
    }
  }

  lemma SatisfiesBoth(sigma: Expr -> bool, a: seq<Expr>, b: seq<Expr>)
    ensures SatisfiesAll(sigma, a + b) <==> SatisfiesAll(sigma, a) && SatisfiesAll(sigma, b)
  {
    if SatisfiesAll(sigma, a + b) {
      assert forall i :: 0 <= i < |a| ==> (a + b)[i] == a[i];
      assert forall i :: 0 <= i < |b| ==> (a + b)[|a| + i] == b[i];
    }
  }

  /** Contradicted assumptions cannot all hold. */
  lemma ContradictionIsImpossible<W(!new)>(p: Program<W>, ok: Env -> bool, assumed: seq<Expr>, x: Exec<W>, c: Expr)
    requires LiveExec(p, ok, assumed, x) && Contradicts(x.props, Assumed(c, true))
    ensures Impossible(p, assumed + [c])
  {
    forall sigma: Expr -> bool | SatisfiesAll(sigma, Root(p))
      ensures !SatisfiesAll(sigma, assumed + [c])
    {
      SatisfiesBoth(sigma, assumed, [c]);
      SatisfiesBoth(sigma, Root(p), Forms(assumed));
      FormsMean(sigma, assumed);
      AssumedMeans(sigma, c, true);
      assert SatisfiesAll(sigma, [c]) ==> Satisfies(sigma, [c][0]);
      if SatisfiesAll(sigma, assumed) {
        ContradictedIsFalse(sigma, x.props, Assumed(c, true));
      }
    }
  }

  /** One more assumption that is not contradicted. */
  lemma AssumptionKeepsLive<W(!new)>(p: Program<W>, ok: Env -> bool, assumed: seq<Expr>, x: Exec<W>, c: Expr)
    requires LiveExec(p, ok, assumed, x) && !Contradicts(x.props, Assumed(c, true))
    ensures LiveExec(p, ok, assumed + [c], x.(props := x.props + [Assumed(c, true)]))
  {
    FormsSnoc(assumed, c);
    assert Root(p) + Forms(assumed) + [Assumed(c, true)] == Root(p) + Forms(assumed + [c]);
    InstallKeepsCoherent(x.props, Assumed(c, true));
    AssumedIsShallow(c, true);
  }

  lemma CopyKeeps<W(!new)>(p: Program<W>, ok: Env -> bool, assumed: seq<Expr>, phase: Phase,
                           abs: Option<Exec<W>>, act: Option<Exec<W>>, c: Expr)
    requires phase.Abstract? || phase.Actual?
    requires Inv(p, ok, Leaf(assumed, phase, abs, act))
    requires Normal(c, (if phase.Abstract? then abs.value else act.value).env.vconsts)
    ensures var r := CopyWithCond(assumed, phase, abs, act, c);
            r.Ok? ==> r.value.Leaf? && r.value.assumed == assumed + [c] && Inv(p, ok, r.value)
  {
    var x := if phase.Abstract? then abs.value else act.value;
    AssumeInstallsNormal(c, true, x.env, x.props);
    if Contradicts(x.props, Assumed(c, true)) {
      ContradictionIsImpossible(p, ok, assumed, x, c);
    } else {
      AssumptionKeepsLive(p, ok, assumed, x, c);
    }
  }

  lemma SplitKeeps<W(!new)>(p: Program<W>, ok: Env -> bool, assumed: seq<Expr>, phase: Phase,
                            abs: Option<Exec<W>>, act: Option<Exec<W>>, c: Expr)
    requires phase.Abstract? || phase.Actual?
    requires Inv(p, ok, Leaf(assumed, phase, abs, act))
    requires !c.Constant? && Normal(c, (if phase.Abstract? then abs.value else act.value).env.vconsts)
    ensures var r := SplitPath(assumed, phase, abs, act, c);
            r.Ok? ==> r.value.assumed == assumed && Inv(p, ok, r.value)
  {
    CopyKeeps(p, ok, assumed, phase, abs, act, c);
    CopyKeeps(p, ok, assumed, phase, abs, act, Not(c));
  }

  lemma StepExecKeeps<W(!new)>(p: Program<W>, ok: Env -> bool, abstract_: bool, assumed: seq<Expr>, x: Exec<W>)
    requires Governed(p, ok) && LiveExec(p, ok, assumed, x)
    requires CounterOk(x.pc, BlockOf(p, abstract_)) && !x.pc.s.AtEnd?
    ensures match StepExec(p, abstract_, x)
            case Done(y) => LiveExec(p, ok, assumed, y) && CounterOk(y.pc, BlockOf(p, abstract_))
              && y.props == x.props && Remaining(y.pc, BlockOf(p, abstract_)) < Remaining(x.pc, BlockOf(p, abstract_))
            case Split(c, y) => LiveExec(p, ok, assumed, y) && y.pc == x.pc && y.props == x.props
              && SplitCond(c, y.env.vconsts, y.props)
            case Failed(_) => true
  {
    if x.pc.s.Stmts? {
      ExecKeeps(p, ok, abstract_, BlockOf(p, abstract_).stmts[x.pc.index], x);
    }
  }

  /** A step of a path that is not at its end keeps the invariant. */
  lemma {:induction false} StepKeepsInv<W(!new)>(p: Program<W>, ok: Env -> bool, t: Tree<W>)
    requires Governed(p, ok) && Inv(p, ok, t) && TreeOk(p, t) && !AllEnded(t)
    ensures var r := Step(p, t); r.Ok? ==> r.value.assumed == t.assumed && Inv(p, ok, r.value)
    decreases t
  {
    match t
    case Leaf(assumed, phase, abs, act) =>
      if phase.Abstract? && !abs.value.pc.s.AtEnd? {
        StepExecKeeps(p, ok, true, assumed, abs.value);
        var s := StepExec(p, true, abs.value);
        if s.Split? {
          SplitKeeps(p, ok, assumed, phase, Some(s.x), None, s.cond);
        }
      } else if phase.Actual? && !act.value.pc.s.AtEnd? {
        StepExecKeeps(p, ok, false, assumed, act.value);
        var s := StepExec(p, false, act.value);
        if s.Split? {
          SplitKeeps(p, ok, assumed, phase, abs, Some(s.x), s.cond);
        }
      } else if phase.Uninit? {
        assert Root(p) + Forms([]) == Root(p);
      }
    case Fork(_, a, b) =>
      if !AllEnded(a) {
        StepKeepsInv(p, ok, a);
      }
      if !AllEnded(b) {
        StepKeepsInv(p, ok, b);
      }
  }

  // ---- the paths partition the truth assignments ----

  /** How many paths have assumptions that all hold. */
  ghost function Matching<W>(t: Tree<W>, sigma: Expr -> bool): nat
    decreases t
  {
    match t
    case Leaf(assumed, _, _, _) => if SatisfiesAll(sigma, assumed) then 1 else 0
    case Fork(_, a, b) => Matching(a, sigma) + Matching(b, sigma)
  }

  /** The path that a truth assignment takes through the splits. */
  ghost function Taken<W(!new)>(p: Program<W>, ok: Env -> bool, t: Tree<W>, sigma: Expr -> bool): (leaf: Tree<W>)
    requires Inv(p, ok, t)
    ensures leaf.Leaf? && Inv(p, ok, leaf) && (AllEnded(t) ==> leaf.phase.Ended?)
    decreases t
  {
    match t
    case Leaf(_, _, _, _) => t
    case Fork(_, a, b) => if Satisfies(sigma, ForkCond(t)) then Taken(p, ok, a, sigma) else Taken(p, ok, b, sigma)
  }

  lemma {:induction false} ExactlyOnePath<W(!new)>(p: Program<W>, ok: Env -> bool, t: Tree<W>, sigma: Expr -> bool)
    requires Inv(p, ok, t)
    ensures Matching(t, sigma) == if SatisfiesAll(sigma, t.assumed) then 1 else 0
    ensures SatisfiesAll(sigma, t.assumed) ==> SatisfiesAll(sigma, Taken(p, ok, t, sigma).assumed)
    decreases t
  {
    match t
    case Leaf(_, _, _, _) =>
    case Fork(assumed, a, b) =>
      var c := ForkCond(t);
      ExactlyOnePath(p, ok, a, sigma);
      ExactlyOnePath(p, ok, b, sigma);
      SatisfiesBoth(sigma, assumed, [c]);
      SatisfiesBoth(sigma, assumed, [Not(c)]);
      assert SatisfiesAll(sigma, [c]) <==> Satisfies(sigma, [c][0]);
      assert SatisfiesAll(sigma, [Not(c)]) <==> Satisfies(sigma, [Not(c)][0]);
  }

  /** The propositions of the state a path is in. */
  function PropsOf<W>(leaf: Tree<W>): seq<Expr>
    requires leaf.Leaf?
  {
    if leaf.act.Some? then leaf.act.value.props else if leaf.abs.Some? then leaf.abs.value.props else []
  }

  /** A path that a contradiction has not ended: its propositions hold exactly where the root's propositions and its
      own assumptions do. */
  lemma PropsAreAssumptions<W(!new)>(p: Program<W>, ok: Env -> bool, leaf: Tree<W>, sigma: Expr -> bool)
    requires leaf.Leaf? && Inv(p, ok, leaf) && !leaf.phase.Uninit?
    requires leaf.phase.Ended? ==> !Impossible(p, leaf.assumed)
    ensures SatisfiesAll(sigma, PropsOf(leaf)) <==>
            SatisfiesAll(sigma, Root(p)) && SatisfiesAll(sigma, leaf.assumed)
  {
    FormsMean(sigma, leaf.assumed);
    SatisfiesBoth(sigma, Root(p), Forms(leaf.assumed));
  }

  predicate Started<W>(t: Tree<W>) {
    match t
    case Leaf(_, phase, _, _) => !phase.Uninit?
    case Fork(_, a, b) => Started(a) && Started(b)
  }

  /** How many paths, not counting those a contradiction has ended, have propositions that all hold. */
  ghost function Holding<W>(p: Program<W>, t: Tree<W>, sigma: Expr -> bool): nat
    decreases t
  {
    match t
    case Leaf(assumed, phase, _, _) =>
      if SatisfiesAll(sigma, PropsOf(t)) && !(phase.Ended? && Impossible(p, assumed)) then 1 else 0
    case Fork(_, a, b) => Holding(p, a, sigma) + Holding(p, b, sigma)
  }

  /** Every truth assignment that meets the root's propositions meets those of exactly one path; any other meets
      those of none. */
  lemma {:induction false} PropsPartitionAssignments<W(!new)>(p: Program<W>, ok: Env -> bool, t: Tree<W>,
                                                              sigma: Expr -> bool)
    requires Inv(p, ok, t) && Started(t)
    ensures Holding(p, t, sigma) == if SatisfiesAll(sigma, Root(p)) && SatisfiesAll(sigma, t.assumed) then 1 else 0
    decreases t
  {
    ExactlyOnePath(p, ok, t, sigma);
    match t
    case Leaf(assumed, phase, _, _) =>
      if phase.Ended? && Impossible(p, assumed) {
      } else {
        PropsAreAssumptions(p, ok, t, sigma);
      }
    case Fork(_, a, b) =>
      PropsPartitionAssignments(p, ok, a, sigma);
      PropsPartitionAssignments(p, ok, b, sigma);
      ExactlyOnePath(p, ok, a, sigma);
      ExactlyOnePath(p, ok, b, sigma);
  }

  lemma {:induction false} AssumptionsOnlyGrow<W(!new)>(p: Program<W>, ok: Env -> bool, t: Tree<W>, sigma: Expr -> bool)
    requires Inv(p, ok, t)
    ensures t.assumed <= Taken(p, ok, t, sigma).assumed
    decreases t
  {
    if t.Fork? {
      AssumptionsOnlyGrow(p, ok, t.onTrue, sigma);
      AssumptionsOnlyGrow(p, ok, t.onFalse, sigma);
    }
  }

  lemma FormsExtend(root: seq<Expr>, assumed: seq<Expr>, longer: seq<Expr>) returns (more: seq<Expr>)
    requires assumed <= longer
    ensures root + Forms(longer) == root + Forms(assumed) + more
  {
    more := Forms(longer)[|assumed|..];
    assert Forms(longer) == Forms(assumed) + more;
  }

  /** A symbolic condition decided on a path keeps its answer on every path that later grows out of it. */
  lemma DecisionLasts<W(!new)>(p: Program<W>, ok: Env -> bool, before: Exec<W>, after: Tree<W>,
                               sigma: Expr -> bool, e: Expr)
    requires LiveExec(p, ok, after.assumed, before) && Inv(p, ok, after)
    requires var leaf := Taken(p, ok, after, sigma); leaf.phase.Abstract? || leaf.phase.Actual?
    requires !IsNot(e) && !Decide(Sync(e), before.props).Undecided?
    ensures Decide(Sync(e), PropsOf(Taken(p, ok, after, sigma))) == Decide(Sync(e), before.props)
  {
    var leaf := Taken(p, ok, after, sigma);
    AssumptionsOnlyGrow(p, ok, after, sigma);
    var more := FormsExtend(Root(p), after.assumed, leaf.assumed);
    DecisionIsStable(e, before.props, more);
  }

  /** In a finished tree every truth assignment that meets the root's propositions meets the assumptions of exactly
      one path, and that path was audited successfully. */
  lemma FinishedTreeIsAudited<W(!new)>(p: Program<W>, ok: Env -> bool, t: Tree<W>, sigma: Expr -> bool)
    requires Inv(p, ok, t) && t.assumed == [] && AllEnded(t) && SatisfiesAll(sigma, Root(p))
    ensures Matching(t, sigma) == 1
    ensures var leaf := Taken(p, ok, t, sigma);
            SatisfiesAll(sigma, leaf.assumed) && Audited(p, leaf.assumed, leaf.abs, leaf.act)
  {
    ExactlyOnePath(p, ok, t, sigma);
    var leaf := Taken(p, ok, t, sigma);
    assert !Impossible(p, leaf.assumed);
  }

  // ---- runs ----

  function Start<W>(): Tree<W> {
    Leaf([], Uninit, None, None)
  }

  /** Every step leads to a tree whose paths are in order. */
  lemma {:induction false} StepKeepsOk<W>(p: Program<W>, t: Tree<W>)
    requires TreeOk(p, t) && !AllEnded(t)
    ensures Step(p, t).Ok? ==> TreeOk(p, Step(p, t).value)
    decreases t
  {
    match t
    case Leaf(_, phase, abs, act) =>
      if phase.Abstract? && abs.value.pc.s.Stmts? {
        SplitKeepsCounter(p, true, p.abs.stmts[abs.value.pc.index], abs.value);
      } else if phase.Actual? && act.value.pc.s.Stmts? {
        SplitKeepsCounter(p, false, p.body.stmts[act.value.pc.index], act.value);
      }
    case Fork(_, a, b) =>
      if !AllEnded(a) {
        StepKeepsOk(p, a);
      }
      if !AllEnded(b) {
        StepKeepsOk(p, b);
      }
  }

  /** What n rounds of the verify loop make of a tree; a finished tree stays as it is. */
  ghost function After<W>(p: Program<W>, t: Tree<W>, n: nat): (r: Result<Tree<W>, Error>)
    requires TreeOk(p, t)
    ensures r.Ok? ==> TreeOk(p, r.value)
    decreases n
  {
    if n == 0 || AllEnded(t) then Ok(t)
    else
      match Step(p, t)
      case Err(e) => Err(e)
      case Ok(next) =>
        StepKeepsOk(p, t);
        After(p, next, n - 1)
  }

  /** The first of n + 1 rounds. */
  lemma AfterStep<W>(p: Program<W>, t: Tree<W>, next: Tree<W>, n: nat)
    requires TreeOk(p, t) && !AllEnded(t) && Step(p, t) == Ok(next)
    ensures TreeOk(p, next) && After(p, t, n + 1) == After(p, next, n)
  {
    StepKeepsOk(p, t);
  }

  lemma {:induction false} AfterMore<W>(p: Program<W>, t: Tree<W>, m: nat, n: nat)
    requires TreeOk(p, t) && After(p, t, m).Ok?
    ensures After(p, t, m + n) == After(p, After(p, t, m).value, n)
    decreases m
  {
    if m > 0 && !AllEnded(t) {
      hide Step, TreeOk;
      StepKeepsOk(p, t);
      AfterMore(p, Step(p, t).value, m - 1, n);
    }
  }

  /** The last of n + 1 rounds. */
  lemma AfterOneMore<W>(p: Program<W>, t: Tree<W>, n: nat)
    requires TreeOk(p, t) && After(p, t, n).Ok?
    ensures var r := After(p, t, n).value;
            After(p, t, n + 1) == if AllEnded(r) then Ok(r) else Step(p, r)
  {
    AfterMore(p, t, n, 1);
    var r := After(p, t, n).value;
    if !AllEnded(r) {
      StepKeepsOk(p, r);
    }
  }

  /** An error is final. */
  lemma {:induction false} AfterFailed<W>(p: Program<W>, t: Tree<W>, m: nat, n: nat)
    requires TreeOk(p, t) && m <= n && After(p, t, m).Err?
    ensures After(p, t, n) == After(p, t, m)
    decreases m
  {
    if Step(p, t).Ok? {
      StepKeepsOk(p, t);
      AfterFailed(p, Step(p, t).value, m - 1, n - 1);
    }
  }

  lemma {:induction false} RunKeepsInv<W(!new)>(p: Program<W>, ok: Env -> bool, t: Tree<W>, n: nat)
    requires Governed(p, ok) && Inv(p, ok, t) && TreeOk(p, t) && After(p, t, n).Ok?
    ensures Inv(p, ok, After(p, t, n).value) && After(p, t, n).value.assumed == t.assumed
    decreases n
  {
    if n > 0 && !AllEnded(t) {
      StepKeepsOk(p, t);
      StepKeepsInv(p, ok, t);
      RunKeepsInv(p, ok, Step(p, t).value, n - 1);
    }
  }

  /** The tree a run has after n rounds keeps the invariant. */
  lemma StartKeepsInv<W(!new)>(p: Program<W>, ok: Env -> bool, n: nat)
    requires Governed(p, ok) && After(p, Start(), n).Ok?
    ensures Inv(p, ok, After(p, Start(), n).value) && After(p, Start(), n).value.assumed == []
  {
    RunKeepsInv(p, ok, Start(), n);
  }

  /** The verify loop ends, in this tree or with this error. */
  ghost predicate Ends<W>(p: Program<W>, r: Result<Tree<W>, Error>) {
    exists n: nat :: After(p, Start(), n) == r && (r.Ok? ==> AllEnded(r.value))
  }

  /** The truth assignment meets the assumptions of exactly one path, and that path was audited successfully. */
  ghost predicate Accounted<W(!new)>(p: Program<W>, ok: Env -> bool, t: Tree<W>, sigma: Expr -> bool)
    requires Inv(p, ok, t)
  {
    && Matching(t, sigma) == 1
    && var leaf := Taken(p, ok, t, sigma);
       SatisfiesAll(sigma, leaf.assumed) && Audited(p, leaf.assumed, leaf.abs, leaf.act)
  }

  /** When verification succeeds, every truth assignment that meets the root's propositions has its path, and it
      passed the audit. */
  lemma VerifiedIsAccounted<W(!new)>(p: Program<W>, ok: Env -> bool, t: Tree<W>, sigma: Expr -> bool)
    requires Governed(p, ok) && Ends(p, Ok(t)) && SatisfiesAll(sigma, Root(p))
    ensures Inv(p, ok, t) && Accounted(p, ok, t, sigma)
  {
    var n: nat :| After(p, Start(), n) == Ok(t) && AllEnded(t);
    StartKeepsInv(p, ok, n);
    FinishedTreeIsAudited(p, ok, t, sigma);
  }
}
