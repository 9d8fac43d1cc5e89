/** What a step makes of a path (src/path/path.c): where the questions of a statement lead, when a step fails and with
    which error, and the two children of a split. */
module Steps {
  import opened Util
  import opened Ast
  import opened Reduce
  import opened Props
  import opened Execution
  import opened Paths

  // ---- where the questions of a statement lead ----

  /** To an effect or to none, to a condition that is not decided, or to one that cannot be. */
  datatype Lead = Does(id: nat) | Skips | Asks(cond: Expr) | Refuses(error: Error)

  /** With the bindings after the reductions on the way. */
  datatype Led = Led(lead: Lead, env: Env)

  function LeadOf(stmt: Stmt, env: Env, props: seq<Expr>): Led
    decreases stmt
  {
    match stmt
    case Act(id) => Led(Does(id), env)
    case Return(id) => Led(Does(id), env)
    case Sel(cond, body, nest) =>
      var r := PfReduce(cond, env);
      match r.out
      case Undefined(name) => Led(Refuses(UserError(name)), r.env)
      case Aborts => Led(Refuses(Crash), r.env)
      case Val(v) =>
        if v.Struct? then Led(Refuses(Crash), r.env)
        else if Holds(v, props) then LeadOf(body, r.env, props)
        else if FailsToHold(v, props) then
          if nest.Some? then LeadOf(nest.value, r.env, props) else Led(Skips, r.env)
        else Led(Asks(ToExpr(v).value), r.env)
  }

  /** A number other than 0, an installed proposition, or a negation of which neither the operand nor the negation is
      installed. */
  predicate Holds(v: Value, props: seq<Expr>) {
    match v
    case Int(k) => k != 0
    case Sync(e) => if IsNot(e) then e.operand !in props && Not(e) !in props else e in props
    case _ => false
  }

  /** The number 0, or a symbol whose negation is installed, or a negation that does not hold. */
  predicate FailsToHold(v: Value, props: seq<Expr>) {
    match v
    case Int(k) => k == 0
    case Sync(e) => if IsNot(e) then e.operand in props || Not(e) in props else e !in props && Not(e) in props
    case _ => false
  }

  lemma DecideIs(v: Value, props: seq<Expr>)
    ensures Decide(v, props) ==
            if v.Struct? then Crashes
            else if Holds(v, props) then True
            else if FailsToHold(v, props) then False
            else Undecided(ToExpr(v).value)
  {
    if v.Sync? && IsNot(v.e) {
      NegationIsAlwaysDecided(v.e.operand, props);
      assert v.e == Not(v.e.operand);
    }
  }

  /** Executing a statement does what its questions lead to, and nothing before they are answered. */
  lemma {:induction false} ExecFollowsLead<W>(p: Program<W>, abstract_: bool, stmt: Stmt, x: Exec<W>)
    ensures var led := LeadOf(stmt, x.env, x.props);
            && Later(x.env, led.env)
            && ExecStmt(p, abstract_, stmt, x) ==
               match led.lead
               case Does(id) =>
                 (match p.run(abstract_, id, led.env, x.world)
                  case Ok(next) => Done(x.(env := next.0, world := next.1))
                  case Err(e) => Failed(e))
               case Skips => Done(x.(env := led.env))
               case Asks(c) => Split(c, x.(env := led.env))
               case Refuses(e) => Failed(e)
    decreases stmt
  {
    match stmt
    case Sel(cond, body, nest) =>
      var r := PfReduce(cond, x.env);
      ReductionGrowsPool(cond, x.env);
      if r.out.Val? {
        DecideIs(r.out.v, x.props);
      }
      ExecFollowsLead(p, abstract_, body, x.(env := r.env));
      if nest.Some? {
        ExecFollowsLead(p, abstract_, nest.value, x.(env := r.env));
      }
    case _ =>
  }

  // ---- when a step fails ----

  /** A condition along the bodies, asked again after the effect, is neither true nor false. */
  predicate OpenAgain(stmt: Stmt, env: Env, props: seq<Expr>)
    decreases stmt
  {
    match stmt
    case Sel(cond, body, _) =>
      var r := PfReduce(cond, env);
      if r.out.Val? && Holds(r.out.v, props) then OpenAgain(body, r.env, props)
      else !(r.out.Val? && FailsToHold(r.out.v, props))
    case _ => false
  }

  lemma {:induction false} OpenAgainExactlyWhen(stmt: Stmt, env: Env, props: seq<Expr>)
    ensures IsTerminal(stmt, env, props) == None <==> OpenAgain(stmt, env, props)
    decreases stmt
  {
    match stmt
    case Sel(cond, body, _) =>
      var r := PfReduce(cond, env);
      if r.out.Val? {
        DecideIs(r.out.v, props);
      }
      OpenAgainExactlyWhen(body, r.env, props);
    case _ =>
  }

  /** What stops the next step of a state: a condition that cannot be decided, or whose assumption is not possible, an
      effect that fails, or a question left open after it. */
  function ExecFailure<W>(p: Program<W>, abstract_: bool, x: Exec<W>): Option<Error>
    requires CounterOk(x.pc, BlockOf(p, abstract_))
  {
    if !x.pc.s.Stmts? then None
    else
      var stmt := BlockOf(p, abstract_).stmts[x.pc.index];
      var led := LeadOf(stmt, x.env, x.props);
      match led.lead
      case Does(id) =>
        (match p.run(abstract_, id, led.env, x.world)
         case Ok(next) => if OpenAgain(stmt, next.0, x.props) then Some(Crash) else None
         case Err(e) => Some(e))
      case Skips => if OpenAgain(stmt, led.env, x.props) then Some(Crash) else None
      case Asks(c) => if Assumable(c) then None else Some(Crash)
      case Refuses(e) => Some(e)
  }

  function FailureIn<T>(r: Result<T, Error>): Option<Error> {
    if r.Err? then Some(r.error) else None
  }

  /** What stops the next step of a tree: a set-up, the next step of a state, or the audit; of two sides the true one
      first. A path at its end is not stepped. */
  function Failure<W>(p: Program<W>, t: Tree<W>): Option<Error>
    requires TreeOk(p, t)
    decreases t
  {
    match t
    case Leaf(_, phase, abs, act) =>
      (match phase
       case Uninit => FailureIn(p.initAbstract)
       case Abstract =>
         if abs.value.pc.s.AtEnd? then FailureIn(p.initActual(abs.value.props)) else ExecFailure(p, true, abs.value)
       case Halfway => FailureIn(p.initActual(abs.value.props))
       case Actual =>
         if !act.value.pc.s.AtEnd? then ExecFailure(p, false, act.value)
         else if p.audit(act.value, abs.value) then None else Some(UserError("audit"))
       case Audit => if p.audit(act.value, abs.value) then None else Some(UserError("audit"))
       case Ended => None)
    case Fork(_, a, b) => if Failure(p, a).Some? then Failure(p, a) else Failure(p, b)
  }

  // ---- what a split leads to ----

  /** The state that a path in the abstract or in the body executes. */
  function StateOf<W>(t: Tree<W>): Exec<W>
    requires t.Leaf? && ((t.phase.Abstract? && t.abs.Some?) || (t.phase.Actual? && t.act.Some?))
  {
    if t.phase.Abstract? then t.abs.value else t.act.value
  }

  /** The path stands at a statement whose questions lead to an undecided condition. */
  ghost predicate AsksIn<W>(p: Program<W>, t: Tree<W>, c: Expr, env: Env) {
    && t.Leaf? && (t.phase.Abstract? || t.phase.Actual?) && LeafOk(p, t.phase, t.abs, t.act)
    && var x := StateOf(t);
       x.pc.s.Stmts? && LeadOf(BlockOf(p, t.phase.Abstract?).stmts[x.pc.index], x.env, x.props) == Led(Asks(c), env)
  }

  /** The path under one more assumption, in this state. */
  function Child<W>(t: Tree<W>, s: Expr, phase: Phase, y: Exec<W>): Tree<W>
    requires t.Leaf?
  {
    if t.phase.Abstract? then Leaf(t.assumed + [s], phase, Some(y), t.act)
    else Leaf(t.assumed + [s], phase, t.abs, Some(y))
  }

  /** A child under s goes on with s installed, unless the opposite is installed already. */
  function Side<W>(t: Tree<W>, s: Expr, opposite: Expr, y: Exec<W>): Tree<W>
    requires t.Leaf?
  {
    if opposite in y.props then Child(t, s, Ended, y) else Child(t, s, t.phase, y.(props := y.props + [s]))
  }

  lemma SideIs<W>(p: Program<W>, t: Tree<W>, c: Expr, y: Exec<W>)
    requires t.Leaf? && LeafOk(p, t.phase, t.abs, t.act) && (t.phase.Abstract? || t.phase.Actual?) && StateOf(t) == y
    requires Normal(c, y.env.vconsts) && !c.Constant? && !IsNot(c) && Shallow(y.props)
    ensures CopyWithCond(t.assumed, t.phase, t.abs, t.act, c) ==
            if Assumable(c) then Ok(Side(t, c, Not(c), y)) else Err(Crash)
    ensures CopyWithCond(t.assumed, t.phase, t.abs, t.act, Not(c)) ==
            if Assumable(c) then Ok(Side(t, Not(c), c, y)) else Err(Crash)
  {
    AssumeInstallsNormal(c, true, y.env, y.props);
    AssumeInstallsNormal(Not(c), true, y.env, y.props);
    assert Contradicts(y.props, c) <==> Not(c) in y.props;
    assert Contradicts(y.props, Not(c)) <==> c in y.props;
  }

  /** The condition of a split is in parameter form and no negation, and undecided unless its value is a pointer. */
  lemma AskedIs<W(!new)>(p: Program<W>, ok: Env -> bool, t: Tree<W>, c: Expr, env: Env)
    requires Governed(p, ok) && Inv(p, ok, t) && AsksIn(p, t, c, env)
    ensures var x := StateOf(t);
            && StepExec(p, t.phase.Abstract?, x) == Split(c, x.(env := env))
            && Normal(c, env.vconsts) && !c.Constant? && !IsNot(c) && Shallow(x.props)
            && ((c.Identifier? && PTR <= c.name) || (c !in x.props && Not(c) !in x.props))
  {
    var x := StateOf(t);
    ExecFollowsLead(p, t.phase.Abstract?, BlockOf(p, t.phase.Abstract?).stmts[x.pc.index], x);
    StepExecKeeps(p, ok, t.phase.Abstract?, t.assumed, x);
    var d := if IsNot(c) then c.operand else c;
    NegationIsAlwaysDecided(d, x.props);
    assert IsNot(c) ==> c == Not(d);
    DecisionReflectsProps(c, x.props);
  }

  /** In the abstract and in the body alike, an undecided condition that can be assumed makes two paths of one: under
      the condition and under its negation, each with it among its propositions. Only a side whose opposite is known,
      as happens to pointers, ends at once. */
  lemma AskedForks<W(!new)>(p: Program<W>, ok: Env -> bool, t: Tree<W>, c: Expr, env: Env)
    requires Governed(p, ok) && Inv(p, ok, t) && AsksIn(p, t, c, env) && Assumable(c)
    ensures var y := StateOf(t).(env := env);
            Step(p, t) == Ok(Fork(t.assumed, Side(t, c, Not(c), y), Side(t, Not(c), c, y)))
    ensures var props := StateOf(t).props;
            c in props || Not(c) in props ==> c.Identifier? && PTR <= c.name
  {
    AskedIs(p, ok, t, c, env);
    var y := StateOf(t).(env := env);
    var u := if t.phase.Abstract? then t.(abs := Some(y)) else t.(act := Some(y));
    SideIs(p, u, c, y);
  }

  // ---- the exact condition ----

  lemma {:induction false} EndedDoesNotFail<W>(p: Program<W>, t: Tree<W>)
    requires TreeOk(p, t) && AllEnded(t)
    ensures Failure(p, t) == None
    decreases t
  {
    if t.Fork? {
      EndedDoesNotFail(p, t.onTrue);
      EndedDoesNotFail(p, t.onFalse);
    }
  }

  /** The outcome is this failure, or there is none. */
  predicate FailsWith<T>(r: Result<T, Error>, e: Option<Error>) {
    if e.Some? then r == Err(e.value) else r.Ok?
  }

  lemma ExecFailsExactlyWhen<W(!new)>(p: Program<W>, ok: Env -> bool, t: Tree<W>)
    requires Governed(p, ok) && Inv(p, ok, t) && t.Leaf? && (t.phase.Abstract? || t.phase.Actual?)
    requires !StateOf(t).pc.s.AtEnd?
    ensures FailsWith(Step(p, t), ExecFailure(p, t.phase.Abstract?, StateOf(t)))
  {
    var a, x := t.phase.Abstract?, StateOf(t);
    if x.pc.s.Stmts? {
      var stmt := BlockOf(p, a).stmts[x.pc.index];
      var led := LeadOf(stmt, x.env, x.props);
      ExecFollowsLead(p, a, stmt, x);
      var r := ExecStmt(p, a, stmt, x);
      if r.Done? {
        OpenAgainExactlyWhen(stmt, r.x.env, x.props);
      } else if r.Split? {
        AskedIs(p, ok, t, r.cond, led.env);
        if Assumable(r.cond) {
          AskedForks(p, ok, t, r.cond, led.env);
        } else {
          var u := if a then t.(abs := Some(r.x)) else t.(act := Some(r.x));
          SideIs(p, u, r.cond, r.x);
        }
      }
    }
  }

  /** A step fails exactly when a set-up fails, a condition cannot be decided or assumed, an effect fails, a question is
      left open after it, or the audit says no; the error is that of the first path, the true side before the false. */
  lemma {:induction false} StepFailsExactlyWhen<W(!new)>(p: Program<W>, ok: Env -> bool, t: Tree<W>)
    requires Governed(p, ok) && Inv(p, ok, t) && TreeOk(p, t) && !AllEnded(t)
    ensures FailsWith(Step(p, t), Failure(p, t))
    decreases t
  {
    match t
    case Leaf(_, phase, abs, act) =>
      if (phase.Abstract? || phase.Actual?) && !StateOf(t).pc.s.AtEnd? {
        ExecFailsExactlyWhen(p, ok, t);
      }
    case Fork(_, a, b) =>
      if AllEnded(a) {
        EndedDoesNotFail(p, a);
      } else {
        StepFailsExactlyWhen(p, ok, a);
      }
      if AllEnded(b) {
        EndedDoesNotFail(p, b);
      } else {
        StepFailsExactlyWhen(p, ok, b);
      }
  }
}
