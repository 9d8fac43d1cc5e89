/** The reference the verification is compared with: execution in which a truth assignment answers every condition
    and a block ends exactly at a return. */
module Reference {
  import opened Util
  import opened Ast
  import opened Reduce
  import opened Props
  import opened Execution
  import opened Paths

  /** What execution works on, without the counter and the propositions. */
  datatype Bare<W> = Bare(env: Env, world: W)

  function BareOf<W>(x: Exec<W>): Bare<W> {
    Bare(x.env, x.world)
  }

  /** The truth of a reduced condition under a truth assignment. */
  function Directed(out: Outcome, sigma: Expr -> bool): Option<bool> {
    match out
    case Val(Sync(e)) => Some(Satisfies(sigma, e))
    case Val(Int(k)) => Some(k != 0)
    case _ => None
  }

  /** What executing a statement comes to: the state it leaves, and whether it returned. */
  datatype Ran<W> = Ran(s: Bare<W>, returned: bool)

  /** Reference execution of a statement: a truth assignment answers every condition, and nothing is assumed. */
  function DirectStmt<W>(p: Program<W>, abstract_: bool, stmt: Stmt, s: Bare<W>, sigma: Expr -> bool)
    : Result<Ran<W>, Error>
    decreases stmt
  {
    match stmt
    case Act(id) => DirectEffect(p, abstract_, id, s, false)
    case Return(id) => DirectEffect(p, abstract_, id, s, true)
    case Sel(cond, body, nest) =>
      var next := s.(env := PfReduce(cond, s.env).env);
      match Directed(PfReduce(cond, s.env).out, sigma)
      case Some(true) => DirectStmt(p, abstract_, body, next, sigma)
      case Some(false) =>
        if nest.Some? then DirectStmt(p, abstract_, nest.value, next, sigma) else Ok(Ran(next, false))
      case None => Err(Crash)
  }

  function DirectEffect<W>(p: Program<W>, abstract_: bool, id: nat, s: Bare<W>, returned: bool): Result<Ran<W>, Error> {
    match p.run(abstract_, id, s.env, s.world)
    case Ok(next) => Ok(Ran(Bare(next.0, next.1), returned))
    case Err(e) => Err(e)
  }

  /** The declarations from the i-th to before the n-th, in order. */
  function Declared<W>(p: Program<W>, abstract_: bool, i: nat, n: nat, s: Bare<W>): Bare<W>
    decreases n - i
  {
    if i >= n then s
    else
      var next := p.declare(abstract_, i, s.env, s.world);
      Declared(p, abstract_, i + 1, n, Bare(next.0, next.1))
  }

  /** The statements one after the other, up to the first that returns. */
  function DirectStmts<W>(p: Program<W>, abstract_: bool, stmts: seq<Stmt>, s: Bare<W>, sigma: Expr -> bool)
    : Result<Bare<W>, Error>
  {
    if stmts == [] then Ok(s)
    else
      match DirectStmt(p, abstract_, stmts[0], s, sigma)
      case Err(e) => Err(e)
      case Ok(ran) => if ran.returned then Ok(ran.s) else DirectStmts(p, abstract_, stmts[1..], ran.s, sigma)
  }

  /** Reference execution of the abstract or of the body: every declaration, then the statements. */
  function DirectRun<W>(p: Program<W>, abstract_: bool, s: Bare<W>, sigma: Expr -> bool): Result<Bare<W>, Error> {
    var b := BlockOf(p, abstract_);
    DirectStmts(p, abstract_, b.stmts, Declared(p, abstract_, 0, b.ndecls, s), sigma)
  }

  /** What is left of that execution when the counter stands at pc. */
  function DirectFrom<W>(p: Program<W>, abstract_: bool, pc: Counter, s: Bare<W>, sigma: Expr -> bool)
    : Result<Bare<W>, Error>
    requires CounterOk(pc, BlockOf(p, abstract_))
  {
    var b := BlockOf(p, abstract_);
    match pc.s
    case Decls => DirectStmts(p, abstract_, b.stmts, Declared(p, abstract_, pc.index, b.ndecls, s), sigma)
    case Stmts => DirectStmts(p, abstract_, b.stmts[pc.index..], s, sigma)
    case AtEnd => Ok(s)
  }

  /** At the first counter all of it is left. */
  lemma AllIsLeft<W>(p: Program<W>, abstract_: bool, s: Bare<W>, sigma: Expr -> bool)
    ensures DirectFrom(p, abstract_, CounterInit(BlockOf(p, abstract_)), s, sigma) == DirectRun(p, abstract_, s, sigma)
  {
  }

  /** One declaration less is left when the counter has moved past it. */
  lemma OneDeclarationLess<W>(p: Program<W>, abstract_: bool, pc: Counter, s: Bare<W>, sigma: Expr -> bool)
    requires CounterOk(pc, BlockOf(p, abstract_)) && pc.s.Decls?
    ensures var b, next := BlockOf(p, abstract_), p.declare(abstract_, pc.index, s.env, s.world);
            DirectFrom(p, abstract_, pc, s, sigma)
            == DirectFrom(p, abstract_, NextDecl(pc, b), Bare(next.0, next.1), sigma)
  {
    var b, next := BlockOf(p, abstract_), p.declare(abstract_, pc.index, s.env, s.world);
    assert b.stmts[0..] == b.stmts;
    assert Declared(p, abstract_, pc.index, b.ndecls, s)
        == Declared(p, abstract_, pc.index + 1, b.ndecls, Bare(next.0, next.1));
  }

  /** One statement less is left when the counter has moved past it, and none when it has returned. */
  lemma OneStatementLess<W>(p: Program<W>, abstract_: bool, pc: Counter, s: Bare<W>, sigma: Expr -> bool)
    requires CounterOk(pc, BlockOf(p, abstract_)) && pc.s.Stmts?
    ensures var b := BlockOf(p, abstract_);
            DirectFrom(p, abstract_, pc, s, sigma) ==
            match DirectStmt(p, abstract_, b.stmts[pc.index], s, sigma)
            case Err(e) => Err(e)
            case Ok(ran) => DirectFrom(p, abstract_, NextStmt(pc, b, ran.returned), ran.s, sigma)
  {
    var b := BlockOf(p, abstract_);
    var stmts := b.stmts[pc.index..];
    assert stmts[0] == b.stmts[pc.index] && stmts[1..] == b.stmts[pc.index + 1..];
    assert DirectFrom(p, abstract_, pc, s, sigma) == DirectStmts(p, abstract_, stmts, s, sigma);
    var r := DirectStmt(p, abstract_, stmts[0], s, sigma);
    if r.Ok? && !r.value.returned {
      assert DirectFrom(p, abstract_, NextStmt(pc, b, false), r.value.s, sigma)
          == DirectStmts(p, abstract_, stmts[1..], r.value.s, sigma);
    }
  }

  // ---- when a block ends where it should ----

  /** Executing the statement takes a return. */
  predicate ReturnTaken(stmt: Stmt, env: Env, props: seq<Expr>)
    decreases stmt
  {
    match stmt
    case Act(_) => false
    case Return(_) => true
    case Sel(cond, body, nest) =>
      match SelDecide(cond, env, props)
      case True => ReturnTaken(body, PfReduce(cond, env).env, props)
      case False => nest.Some? && ReturnTaken(nest.value, PfReduce(cond, env).env, props)
      case _ => false
  }

  /** The innermost body is a return. */
  predicate BodyReturns(stmt: Stmt)
    decreases stmt
  {
    match stmt
    case Act(_) => false
    case Return(_) => true
    case Sel(_, body, _) => BodyReturns(body)
  }

  /** Every condition along the bodies is decided true. */
  predicate BodyHolds(stmt: Stmt, env: Env, props: seq<Expr>)
    decreases stmt
  {
    match stmt
    case Sel(cond, body, _) => SelDecide(cond, env, props).True? && BodyHolds(body, PfReduce(cond, env).env, props)
    case _ => true
  }

  /** The return taken lies in an else-branch. */
  predicate ElseReturn(stmt: Stmt, env: Env, props: seq<Expr>)
    decreases stmt, 0
  {
    match stmt
    case Sel(cond, body, nest) =>
      (match SelDecide(cond, env, props)
       case True => ElseReturn(body, PfReduce(cond, env).env, props)
       case False => nest.Some? && ReturnsIn(nest.value, PfReduce(cond, env).env, props)
       case _ => false)
    case _ => false
  }

  /** The return taken is the innermost body, or lies in an else-branch. */
  predicate ReturnsIn(stmt: Stmt, env: Env, props: seq<Expr>)
    decreases stmt, 1
  {
    (BodyReturns(stmt) && BodyHolds(stmt, env, props)) || ElseReturn(stmt, env, props)
  }

  lemma {:induction false} TerminalIsBodyReturn(stmt: Stmt, env: Env, props: seq<Expr>)
    requires IsTerminal(stmt, env, props).Some?
    ensures IsTerminal(stmt, env, props) == Some(BodyReturns(stmt) && BodyHolds(stmt, env, props))
    decreases stmt
  {
    match stmt
    case Sel(cond, body, _) =>
      if SelDecide(cond, env, props).True? {
        TerminalIsBodyReturn(body, PfReduce(cond, env).env, props);
      }
    case _ =>
  }

  lemma {:induction false} ReturnIsInBodyOrElse(stmt: Stmt, env: Env, props: seq<Expr>)
    ensures ReturnTaken(stmt, env, props) <==> ReturnsIn(stmt, env, props)
    decreases stmt
  {
    match stmt
    case Sel(cond, body, nest) =>
      ReturnIsInBodyOrElse(body, PfReduce(cond, env).env, props);
      if nest.Some? {
        ReturnIsInBodyOrElse(nest.value, PfReduce(cond, env).env, props);
      }
    case _ =>
  }

  /** When the innermost body is a return, its conditions hold after the effect exactly if they held before it or a
      return was taken in an else-branch; and otherwise no return was taken in an else-branch. */
  predicate EndsRight(stmt: Stmt, before: Env, after: Env, props: seq<Expr>) {
    if BodyReturns(stmt) then
      BodyHolds(stmt, after, props) <==> BodyHolds(stmt, before, props) || ElseReturn(stmt, before, props)
    else !ElseReturn(stmt, before, props)
  }

  /** The question asked after the statement is answered by whether a return was taken if and only if the conditions
      along the bodies and the else-branches are as EndsRight says. */
  lemma TerminalExactlyWhen(stmt: Stmt, before: Env, after: Env, props: seq<Expr>)
    requires IsTerminal(stmt, after, props).Some?
    ensures IsTerminal(stmt, after, props) == Some(ReturnTaken(stmt, before, props)) <==>
            EndsRight(stmt, before, after, props)
  {
    TerminalIsBodyReturn(stmt, after, props);
    ReturnIsInBodyOrElse(stmt, before, props);
  }

  /** The conditions along the bodies that are asked again after the effect keep their answers. */
  predicate KeepsAnswers(stmt: Stmt, before: Env, after: Env, props: seq<Expr>)
    decreases stmt
  {
    match stmt
    case Sel(cond, body, _) =>
      && SelDecide(cond, after, props) == SelDecide(cond, before, props)
      && (SelDecide(cond, before, props).True? ==>
            KeepsAnswers(body, PfReduce(cond, before).env, PfReduce(cond, after).env, props))
    case _ => true
  }

  /** When the effect changes none of the answers, a return is missed if and only if it lies in an else-branch. */
  lemma {:induction false} ReturnMissedExactlyInElse(stmt: Stmt, before: Env, after: Env, props: seq<Expr>)
    requires IsTerminal(stmt, after, props).Some? && KeepsAnswers(stmt, before, after, props)
    ensures IsTerminal(stmt, after, props) == Some(ReturnTaken(stmt, before, props)) <==>
            !ElseReturn(stmt, before, props)
    decreases stmt
  {
    ReturnIsInBodyOrElse(stmt, before, props);
    match stmt
    case Sel(cond, body, _) =>
      if SelDecide(cond, before, props).True? {
        ReturnMissedExactlyInElse(body, PfReduce(cond, before).env, PfReduce(cond, after).env, props);
      }
    case _ =>
  }

  /** "if (0) ...; else return ...;" does not end the block: the next statement runs, where the reference stops. */
  lemma ElseReturnIsMissed<W>(p: Program<W>, x: Exec<W>, sigma: Expr -> bool)
    requires p.body == Block(0, [Sel(Constant(0), Act(0), Some(Return(1))), Act(2)])
    requires x.pc == Counter(Stmts, 0) && p.run(false, 1, x.env, x.world).Ok?
    ensures var r := StepExec(p, false, x); r.Done? && r.x.pc == Counter(Stmts, 1)
    ensures var r := DirectStmt(p, false, p.body.stmts[0], BareOf(x), sigma); r.Ok? && r.value.returned
  {
    assert ExecStmt(p, false, Return(1), x).Done?;
    assert IsTerminal(p.body.stmts[0], ExecStmt(p, false, Return(1), x).x.env, x.props) == Some(false);
  }

  /** "if (x) return ...;" does not end the block either when the return sets x to 0. */
  lemma ChangedAnswerIsMissed<W>(p: Program<W>, x: Exec<W>, sigma: Expr -> bool)
    requires p.body == Block(0, [Sel(Identifier("x"), Return(0), None), Act(1)]) && x.pc == Counter(Stmts, 0)
    requires x.env == Env(map["x" := Some(Int(1))], {}, [])
    requires p.run(false, 0, x.env, x.world) == Ok((Env(map["x" := Some(Int(0))], {}, []), x.world))
    ensures var r := StepExec(p, false, x); r.Done? && r.x.pc == Counter(Stmts, 1)
    ensures var r := DirectStmt(p, false, p.body.stmts[0], BareOf(x), sigma); r.Ok? && r.value.returned
  {
    assert !(PTR <= "x") && !Hash("x");
    assert ExecStmt(p, false, Return(0), x).Done?;
  }

  // ---- when a path is the execution that an assignment directs ----

  ghost predicate GroundedOut(out: Outcome, props: seq<Expr>) {
    out.Val? && out.v.Sync? ==> Grounded(out.v.e, props)
  }

  /** Every condition that executing the statement asks is answered by what is known. */
  ghost predicate QueriesGrounded(stmt: Stmt, env: Env, props: seq<Expr>)
    decreases stmt
  {
    match stmt
    case Sel(cond, body, nest) =>
      && GroundedOut(PfReduce(cond, env).out, props)
      && (match SelDecide(cond, env, props)
          case True => QueriesGrounded(body, PfReduce(cond, env).env, props)
          case False => nest.Some? ==> QueriesGrounded(nest.value, PfReduce(cond, env).env, props)
          case _ => true)
    case _ => true
  }

  /** The statement asks only what is known, and a return it takes is noticed. */
  ghost predicate Faithful<W>(p: Program<W>, abstract_: bool, stmt: Stmt, x: Exec<W>) {
    && QueriesGrounded(stmt, x.env, x.props)
    && var r := ExecStmt(p, abstract_, stmt, x);
       r.Done? && IsTerminal(stmt, r.x.env, r.x.props).Some? ==> EndsRight(stmt, x.env, r.x.env, x.props)
  }

  /** A completed statement is faithful if and only if it has taken the branches that every truth assignment allowed by
      the propositions directs, and the question asked after it is answered by whether it took a return. */
  lemma FaithfulExactlyWhen<W>(p: Program<W>, abstract_: bool, stmt: Stmt, x: Exec<W>)
    requires Coherent(x.props) && Shallow(x.props) && ExecStmt(p, abstract_, stmt, x).Done?
    requires IsTerminal(stmt, ExecStmt(p, abstract_, stmt, x).x.env, x.props).Some?
    ensures var y := ExecStmt(p, abstract_, stmt, x).x;
            Faithful(p, abstract_, stmt, x) <==>
              && ChoicesAgree(stmt, x.env, x.props)
              && IsTerminal(stmt, y.env, x.props) == Some(ReturnTaken(stmt, x.env, x.props))
  {
    var y := ExecStmt(p, abstract_, stmt, x).x;
    SplitKeepsCounter(p, abstract_, stmt, x);
    DoneHasChoices(p, abstract_, stmt, x);
    ChoicesAreDirectedExactlyWhen(stmt, x.env, x.props);
    TerminalExactlyWhen(stmt, x.env, y.env, x.props);
  }

  lemma {:induction false} DoneHasChoices<W>(p: Program<W>, abstract_: bool, stmt: Stmt, x: Exec<W>)
    requires ExecStmt(p, abstract_, stmt, x).Done?
    ensures Choices(stmt, x.env, x.props).Some?
    decreases stmt
  {
    match stmt
    case Sel(cond, body, nest) =>
      var next := x.(env := PfReduce(cond, x.env).env);
      if SelDecide(cond, x.env, x.props).True? {
        DoneHasChoices(p, abstract_, body, next);
      } else if nest.Some? {
        DoneHasChoices(p, abstract_, nest.value, next);
      }
    case _ =>
  }

  ghost predicate ExecFaithful<W>(p: Program<W>, abstract_: bool, x: Exec<W>)
    requires CounterOk(x.pc, BlockOf(p, abstract_))
  {
    x.pc.s.Stmts? ==> Faithful(p, abstract_, BlockOf(p, abstract_).stmts[x.pc.index], x)
  }

  /** The statement next on the path that the assignment takes is faithful. */
  ghost predicate TreeFaithful<W>(p: Program<W>, t: Tree<W>, sigma: Expr -> bool)
    requires TreeOk(p, t)
    decreases t
  {
    match t
    case Leaf(assumed, phase, abs, act) =>
      SatisfiesAll(sigma, assumed) ==>
        && (phase.Abstract? ==> ExecFaithful(p, true, abs.value))
        && (phase.Actual? ==> ExecFaithful(p, false, act.value))
    case Fork(_, a, b) => TreeFaithful(p, a, sigma) && TreeFaithful(p, b, sigma)
  }

  /** So is every statement on it, over n rounds of the verify loop. */
  ghost predicate RunFaithful<W>(p: Program<W>, n: nat, sigma: Expr -> bool) {
    forall m: nat :: m < n && After(p, Start(), m).Ok? ==> TreeFaithful(p, After(p, Start(), m).value, sigma)
  }

  /** A grounded answer is what a truth assignment that meets the propositions says. */
  lemma DecidedIsDirected(cond: Expr, env: Env, props: seq<Expr>, sigma: Expr -> bool)
    requires Coherent(props) && Shallow(props) && SatisfiesAll(sigma, props)
    requires GroundedOut(PfReduce(cond, env).out, props)
    ensures SelDecide(cond, env, props) == True ==> Directed(PfReduce(cond, env).out, sigma) == Some(true)
    ensures SelDecide(cond, env, props) == False ==> Directed(PfReduce(cond, env).out, sigma) == Some(false)
  {
    var out := PfReduce(cond, env).out;
    if out.Val? && out.v.Sync? {
      GroundedAgrees(out.v.e, props, sigma);
    }
  }

  /** A completed statement did what the truth assignment directs; after a split the statement is still to do the
      same, however much the literal pool has grown. */
  lemma {:induction false} ExecIsDirected<W>(
    p: Program<W>, abstract_: bool, stmt: Stmt, x: Exec<W>, sigma: Expr -> bool)
    requires Coherent(x.props) && Shallow(x.props) && SatisfiesAll(sigma, x.props)
    requires QueriesGrounded(stmt, x.env, x.props)
    ensures match ExecStmt(p, abstract_, stmt, x)
            case Done(y) => DirectStmt(p, abstract_, stmt, BareOf(x), sigma)
              == Ok(Ran(BareOf(y), ReturnTaken(stmt, x.env, x.props)))
            case Split(c, y) => Later(x.env, y.env) &&
              DirectStmt(p, abstract_, stmt, Bare(y.env, x.world), sigma)
              == DirectStmt(p, abstract_, stmt, BareOf(x), sigma)
            case Failed(_) => true
    decreases stmt
  {
    match stmt
    case Sel(cond, body, nest) =>
      ReductionGrowsPool(cond, x.env);
      var next := x.(env := PfReduce(cond, x.env).env);
      assert Later(x.env, next.env) && Later(next.env, next.env);
      DecidedIsDirected(cond, x.env, x.props, sigma);
      ReductionIsStable(cond, x.env, next.env);
      var d := SelDecide(cond, x.env, x.props);
      var branch := if d.True? then Some(body) else if d.False? then nest else None;
      if branch.Some? {
        ExecIsDirected(p, abstract_, branch.value, next, sigma);
        var r := ExecStmt(p, abstract_, branch.value, next);
        if r.Split? {
          ReductionIsStable(cond, x.env, r.x.env);
        }
      }
    case _ =>
  }

  /** The answers to the conditions that a completed statement asks. */
  function Choices(stmt: Stmt, env: Env, props: seq<Expr>): Option<seq<bool>>
    decreases stmt
  {
    match stmt
    case Sel(cond, body, nest) =>
      (match SelDecide(cond, env, props)
       case True => Chosen(true, Choices(body, PfReduce(cond, env).env, props))
       case False =>
         Chosen(false, if nest.Some? then Choices(nest.value, PfReduce(cond, env).env, props) else Some([]))
       case _ => None)
    case _ => Some([])
  }

  function Chosen(b: bool, rest: Option<seq<bool>>): Option<seq<bool>> {
    match rest
    case Some(bs) => Some([b] + bs)
    case None => None
  }

  lemma ChosenApart(b: bool, x: Option<seq<bool>>, c: bool, y: Option<seq<bool>>)
    requires y.Some?
    ensures Chosen(b, x) == Chosen(c, y) <==> b == c && x == y
  {
    if x.Some? {
      assert ([b] + x.value)[0] == b && ([c] + y.value)[0] == c;
      assert ([b] + x.value)[1..] == x.value && ([c] + y.value)[1..] == y.value;
    }
  }

  /** The answers that a truth assignment gives. */
  function DirectChoices(stmt: Stmt, env: Env, sigma: Expr -> bool): Option<seq<bool>>
    decreases stmt
  {
    match stmt
    case Sel(cond, body, nest) =>
      (match Directed(PfReduce(cond, env).out, sigma)
       case Some(true) => Chosen(true, DirectChoices(body, PfReduce(cond, env).env, sigma))
       case Some(false) =>
         Chosen(false, if nest.Some? then DirectChoices(nest.value, PfReduce(cond, env).env, sigma) else Some([]))
       case None => None)
    case _ => Some([])
  }

  ghost predicate ChoicesAgree(stmt: Stmt, env: Env, props: seq<Expr>) {
    forall sigma: Expr -> bool :: SatisfiesAll(sigma, props) ==>
      DirectChoices(stmt, env, sigma) == Choices(stmt, env, props)
  }

  /** A completed statement has taken the branches that every truth assignment allowed by the propositions directs if
      and only if every condition it asked is answered by what is known. */
  lemma {:induction false} ChoicesAreDirectedExactlyWhen(stmt: Stmt, env: Env, props: seq<Expr>)
    requires Coherent(props) && Shallow(props) && Choices(stmt, env, props).Some?
    ensures ChoicesAgree(stmt, env, props) <==> QueriesGrounded(stmt, env, props)
    decreases stmt
  {
    match stmt
    case Sel(cond, body, nest) =>
      var r, d := PfReduce(cond, env), SelDecide(cond, env, props);
      var branch := if d.True? then Some(body) else nest;
      if branch.Some? {
        ChoicesAreDirectedExactlyWhen(branch.value, r.env, props);
      }
      if GroundedOut(r.out, props) {
        forall sigma: Expr -> bool | SatisfiesAll(sigma, props)
          ensures Directed(r.out, sigma) == Some(d.True?)
        {
          DecidedIsDirected(cond, env, props, sigma);
        }
        forall sigma: Expr -> bool | SatisfiesAll(sigma, props)
          ensures DirectChoices(stmt, env, sigma) == Choices(stmt, env, props) <==>
                  branch.None? || DirectChoices(branch.value, r.env, sigma) == Choices(branch.value, r.env, props)
        {
          if branch.Some? {
            ChosenApart(d.True?, DirectChoices(branch.value, r.env, sigma),
                          d.True?, Choices(branch.value, r.env, props));
          }
        }
      } else {
        GroundedExactlyWhen(r.out.v.e, props);
        var sigma: Expr -> bool :| SatisfiesAll(sigma, props) &&
                                   !Agrees(Decide(r.out.v, props), Satisfies(sigma, r.out.v.e));
        assert Choices(stmt, env, props).value[0] == d.True?;
        assert DirectChoices(stmt, env, sigma).Some? ==> DirectChoices(stmt, env, sigma).value[0] != d.True?;
      }
    case _ =>
  }

  /** With nothing assumed and x the symbol `$0`, "if (!x) ..." is executed, although an assignment that makes `$0`
      true directs execution past it. */
  lemma NegatedGuessMisleads<W>(p: Program<W>, abstract_: bool, x: Exec<W>, sigma: Expr -> bool)
    requires x.props == [] && x.env == Env(map["x" := Some(Sync(Identifier("$0")))], {"$0"}, [])
    requires sigma(Identifier("$0"))
    ensures var stmt := Sel(Not(Identifier("x")), Act(0), None);
            && ExecStmt(p, abstract_, stmt, x) == Effect(p, abstract_, 0, x)
            && DirectStmt(p, abstract_, stmt, BareOf(x), sigma) == Ok(Ran(BareOf(x), false))
            && !QueriesGrounded(stmt, x.env, x.props)
  {
    assert !(PTR <= "x") && !Hash("x");
    assert PfReduce(Identifier("x"), x.env) == Reduction(Val(Sync(Identifier("$0"))), x.env);
    assert PfReduce(Not(Identifier("x")), x.env) == Reduction(Val(Sync(Not(Identifier("$0")))), x.env);
  }

  /** One step of a path leaves the execution directed by the truth assignment where it leads. */
  lemma StepExecIsDirected<W(!new)>(p: Program<W>, ok: Env -> bool, abstract_: bool, assumed: seq<Expr>, x: Exec<W>,
                                    sigma: Expr -> bool)
    requires Governed(p, ok) && LiveExec(p, ok, assumed, x) && SatisfiesAll(sigma, x.props)
    requires CounterOk(x.pc, BlockOf(p, abstract_)) && !x.pc.s.AtEnd? && ExecFaithful(p, abstract_, x)
    ensures var r := StepExec(p, abstract_, x);
            !r.Failed? ==> CounterOk(r.x.pc, BlockOf(p, abstract_))
                           && DirectFrom(p, abstract_, r.x.pc, BareOf(r.x), sigma)
                              == DirectFrom(p, abstract_, x.pc, BareOf(x), sigma)
  {
    if x.pc.s.Stmts? {
      var stmt := BlockOf(p, abstract_).stmts[x.pc.index];
      OneStatementLess(p, abstract_, x.pc, BareOf(x), sigma);
      ExecIsDirected(p, abstract_, stmt, x, sigma);
      SplitKeepsCounter(p, abstract_, stmt, x);
      var r := ExecStmt(p, abstract_, stmt, x);
      if r.Done? {
        if IsTerminal(stmt, r.x.env, r.x.props).Some? {
          TerminalExactlyWhen(stmt, x.env, r.x.env, x.props);
        }
      } else if r.Split? {
        OneStatementLess(p, abstract_, x.pc, BareOf(r.x), sigma);
        assert BareOf(r.x) == Bare(r.x.env, x.world);
      }
    } else {
      OneDeclarationLess(p, abstract_, x.pc, BareOf(x), sigma);
    }
  }

  function StartAbstract<W>(p: Program<W>): Bare<W>
    requires p.initAbstract.Ok?
  {
    Bare(p.initAbstract.value.0, p.initAbstract.value.1)
  }

  function StartActual<W>(p: Program<W>, props: seq<Expr>): Bare<W>
    requires p.initActual(props).Ok?
  {
    Bare(p.initActual(props).value.0, p.initActual(props).value.1)
  }

  /** The abstract, executed as the truth assignment directs, ends as this path's abstract did. */
  ghost predicate AbstractDone<W>(p: Program<W>, abs: Exec<W>, sigma: Expr -> bool) {
    p.initAbstract.Ok? && DirectRun(p, true, StartAbstract(p), sigma) == Ok(BareOf(abs))
  }

  /** And so do both the abstract and the body. */
  ghost predicate BothDone<W>(p: Program<W>, abs: Option<Exec<W>>, act: Option<Exec<W>>, sigma: Expr -> bool) {
    && abs.Some? && act.Some? && AbstractDone(p, abs.value, sigma) && p.initActual(abs.value.props).Ok?
    && DirectRun(p, false, StartActual(p, abs.value.props), sigma) == Ok(BareOf(act.value))
  }

  /** The path is on the way that the truth assignment directs. */
  ghost predicate OnTheWay<W>(p: Program<W>, phase: Phase, abs: Option<Exec<W>>, act: Option<Exec<W>>,
                              sigma: Expr -> bool)
    requires LeafOk(p, phase, abs, act)
  {
    match phase
    case Uninit => true
    case Abstract =>
      && p.initAbstract.Ok?
      && DirectFrom(p, true, abs.value.pc, BareOf(abs.value), sigma) == DirectRun(p, true, StartAbstract(p), sigma)
    case Actual =>
      && AbstractDone(p, abs.value, sigma) && p.initActual(abs.value.props).Ok?
      && DirectFrom(p, false, act.value.pc, BareOf(act.value), sigma)
         == DirectRun(p, false, StartActual(p, abs.value.props), sigma)
    case Halfway => AbstractDone(p, abs.value, sigma)
    case Audit => BothDone(p, abs, act, sigma)
    case Ended => BothDone(p, abs, act, sigma)
  }

  /** Every path whose assumptions the truth assignment meets is on its way. */
  ghost predicate Follows<W>(p: Program<W>, t: Tree<W>, sigma: Expr -> bool)
    requires TreeOk(p, t)
    decreases t
  {
    match t
    case Leaf(assumed, phase, abs, act) => SatisfiesAll(sigma, assumed) ==> OnTheWay(p, phase, abs, act, sigma)
    case Fork(_, a, b) => Follows(p, a, sigma) && Follows(p, b, sigma)
  }

  lemma CopyFollows<W(!new)>(p: Program<W>, ok: Env -> bool, assumed: seq<Expr>, phase: Phase,
                             abs: Option<Exec<W>>, act: Option<Exec<W>>, c: Expr, sigma: Expr -> bool)
    requires phase.Abstract? || phase.Actual?
    requires Inv(p, ok, Leaf(assumed, phase, abs, act)) && SatisfiesAll(sigma, Root(p))
    requires Follows(p, Leaf(assumed, phase, abs, act), sigma)
    requires Normal(c, (if phase.Abstract? then abs.value else act.value).env.vconsts)
    ensures var r := CopyWithCond(assumed, phase, abs, act, c);
            r.Ok? ==> TreeOk(p, r.value) && Follows(p, r.value, sigma)
  {
    var x := if phase.Abstract? then abs.value else act.value;
    AssumeInstallsNormal(c, true, x.env, x.props);
    SatisfiesBoth(sigma, assumed, [c]);
    if Contradicts(x.props, Assumed(c, true)) {
      ContradictionIsImpossible(p, ok, assumed, x, c);
    }
  }

  lemma SplitFollows<W(!new)>(p: Program<W>, ok: Env -> bool, assumed: seq<Expr>, phase: Phase,
                              abs: Option<Exec<W>>, act: Option<Exec<W>>, c: Expr, sigma: Expr -> bool)
    requires phase.Abstract? || phase.Actual?
    requires Inv(p, ok, Leaf(assumed, phase, abs, act)) && SatisfiesAll(sigma, Root(p))
    requires Follows(p, Leaf(assumed, phase, abs, act), sigma)
    requires !c.Constant? && Normal(c, (if phase.Abstract? then abs.value else act.value).env.vconsts)
    ensures var r := SplitPath(assumed, phase, abs, act, c);
            r.Ok? ==> TreeOk(p, r.value) && Follows(p, r.value, sigma)
  {
    CopyFollows(p, ok, assumed, phase, abs, act, c, sigma);
    CopyFollows(p, ok, assumed, phase, abs, act, Not(c), sigma);
  }

  lemma LiveSatisfied<W(!new)>(p: Program<W>, ok: Env -> bool, assumed: seq<Expr>, x: Exec<W>, sigma: Expr -> bool)
    requires LiveExec(p, ok, assumed, x) && SatisfiesAll(sigma, Root(p)) && SatisfiesAll(sigma, assumed)
    ensures SatisfiesAll(sigma, x.props)
  {
    FormsMean(sigma, assumed);
    SatisfiesBoth(sigma, Root(p), Forms(assumed));
  }

  lemma AbstractFollows<W(!new)>(p: Program<W>, ok: Env -> bool, assumed: seq<Expr>, x: Exec<W>, sigma: Expr -> bool)
    requires Governed(p, ok) && SatisfiesAll(sigma, Root(p))
    requires Inv(p, ok, Leaf(assumed, Abstract, Some(x), None))
    requires TreeFaithful(p, Leaf(assumed, Abstract, Some(x), None), sigma)
    requires Follows(p, Leaf(assumed, Abstract, Some(x), None), sigma)
    ensures var r := StepAbstract(p, assumed, x); r.Ok? ==> TreeOk(p, r.value) && Follows(p, r.value, sigma)
  {
    if SatisfiesAll(sigma, assumed) {
      LiveSatisfied(p, ok, assumed, x, sigma);
    }
    if x.pc.s.AtEnd? {
      if p.initActual(x.props).Ok? {
        AllIsLeft(p, false, StartActual(p, x.props), sigma);
      }
    } else {
      StepExecKeeps(p, ok, true, assumed, x);
      if SatisfiesAll(sigma, assumed) {
        StepExecIsDirected(p, ok, true, assumed, x, sigma);
      }
      var s := StepExec(p, true, x);
      if s.Split? {
        SplitFollows(p, ok, assumed, Abstract, Some(s.x), None, s.cond, sigma);
      }
    }
  }

  lemma ActualFollows<W(!new)>(p: Program<W>, ok: Env -> bool, assumed: seq<Expr>, abs: Exec<W>, x: Exec<W>,
                               sigma: Expr -> bool)
    requires Governed(p, ok) && SatisfiesAll(sigma, Root(p))
    requires Inv(p, ok, Leaf(assumed, Actual, Some(abs), Some(x)))
    requires TreeFaithful(p, Leaf(assumed, Actual, Some(abs), Some(x)), sigma)
    requires Follows(p, Leaf(assumed, Actual, Some(abs), Some(x)), sigma)
    ensures var r := StepActual(p, assumed, abs, x); r.Ok? ==> TreeOk(p, r.value) && Follows(p, r.value, sigma)
  {
    if SatisfiesAll(sigma, assumed) {
      LiveSatisfied(p, ok, assumed, x, sigma);
    }
    if !x.pc.s.AtEnd? {
      StepExecKeeps(p, ok, false, assumed, x);
      if SatisfiesAll(sigma, assumed) {
        StepExecIsDirected(p, ok, false, assumed, x, sigma);
      }
      var s := StepExec(p, false, x);
      if s.Split? {
        SplitFollows(p, ok, assumed, Actual, Some(abs), Some(s.x), s.cond, sigma);
      }
    }
  }

  lemma {:induction false} StepFollows<W(!new)>(p: Program<W>, ok: Env -> bool, t: Tree<W>, sigma: Expr -> bool)
    requires Governed(p, ok) && SatisfiesAll(sigma, Root(p))
    requires Inv(p, ok, t) && TreeOk(p, t) && !AllEnded(t) && Follows(p, t, sigma) && TreeFaithful(p, t, sigma)
    ensures var r := Step(p, t); r.Ok? ==> TreeOk(p, r.value) && Follows(p, r.value, sigma)
    decreases t
  {
    match t
    case Leaf(assumed, phase, abs, act) =>
      if phase.Uninit? && p.initAbstract.Ok? {
        AllIsLeft(p, true, StartAbstract(p), sigma);
      } else if phase.Abstract? {
        AbstractFollows(p, ok, assumed, abs.value, sigma);
      } else if phase.Actual? {
        ActualFollows(p, ok, assumed, abs.value, act.value, sigma);
      }
    case Fork(_, a, b) =>
      if !AllEnded(a) {
        StepFollows(p, ok, a, sigma);
      }
      if !AllEnded(b) {
        StepFollows(p, ok, b, sigma);
      }
  }

  /** Where a truth assignment leads in a finished tree, both states are what the assignment directs. */
  lemma {:induction false} TakenIsDirected<W(!new)>(p: Program<W>, ok: Env -> bool, t: Tree<W>, sigma: Expr -> bool)
    requires Inv(p, ok, t) && TreeOk(p, t) && AllEnded(t) && Follows(p, t, sigma) && SatisfiesAll(sigma, t.assumed)
    ensures var leaf := Taken(p, ok, t, sigma); BothDone(p, leaf.abs, leaf.act, sigma)
    decreases t
  {
    match t
    case Leaf(_, _, _, _) =>
    case Fork(assumed, a, b) =>
      var c := ForkCond(t);
      SatisfiesBoth(sigma, assumed, [c]);
      SatisfiesBoth(sigma, assumed, [Not(c)]);
      assert SatisfiesAll(sigma, [c]) <==> Satisfies(sigma, [c][0]);
      assert SatisfiesAll(sigma, [Not(c)]) <==> Satisfies(sigma, [Not(c)][0]);
      if Satisfies(sigma, c) {
        TakenIsDirected(p, ok, a, sigma);
      } else {
        TakenIsDirected(p, ok, b, sigma);
      }
  }

  lemma {:induction false} RunFollows<W(!new)>(p: Program<W>, ok: Env -> bool, n: nat, sigma: Expr -> bool)
    requires Governed(p, ok) && SatisfiesAll(sigma, Root(p)) && RunFaithful(p, n, sigma) && After(p, Start(), n).Ok?
    ensures Follows(p, After(p, Start(), n).value, sigma)
    decreases n
  {
    if n > 0 {
      hide Inv, Governed, Follows, Step, TreeFaithful;
      PrefixOk(p, Start(), n - 1, n);
      var t := After(p, Start(), n - 1).value;
      RunFollows(p, ok, n - 1, sigma);
      StartKeepsInv(p, ok, n - 1);
      AfterOneMore(p, Start(), n - 1);
      if !AllEnded(t) {
        StepFollows(p, ok, t, sigma);
      }
    }
  }

  /** A run that has come so far had not failed before. */
  lemma {:induction false} PrefixOk<W>(p: Program<W>, t: Tree<W>, m: nat, n: nat)
    requires TreeOk(p, t) && m <= n && After(p, t, n).Ok?
    ensures After(p, t, m).Ok?
    decreases m
  {
    if m > 0 && !AllEnded(t) {
      StepKeepsOk(p, t);
      PrefixOk(p, Step(p, t).value, m - 1, n - 1);
    }
  }

  /** When verification succeeds after n rounds, the states that were audited for a truth assignment are exactly
      those that executing the abstract and the body with its answers leads to, provided that on the path the
      assignment takes every negated condition asked has its operand decided and every return is noticed. */
  lemma VerifiedIsDirected<W(!new)>(p: Program<W>, ok: Env -> bool, n: nat, sigma: Expr -> bool)
    requires Governed(p, ok) && After(p, Start(), n).Ok? && AllEnded(After(p, Start(), n).value)
    requires SatisfiesAll(sigma, Root(p)) && RunFaithful(p, n, sigma)
    ensures exists abs, act :: BothDone(p, Some(abs), Some(act), sigma) && p.audit(act, abs)
  {
    var t := After(p, Start(), n).value;
    assert Ends(p, Ok(t));
    VerifiedIsAccounted(p, ok, t, sigma);
    StartKeepsInv(p, ok, n);
    RunFollows(p, ok, n, sigma);
    TakenIsDirected(p, ok, t, sigma);
    var leaf := Taken(p, ok, t, sigma);
    assert BothDone(p, Some(leaf.abs.value), Some(leaf.act.value), sigma);
  }
}
