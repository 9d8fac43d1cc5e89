/** Executing the abstract or the body of a function statement by statement (src/state/stack.c,
    src/ast/stmt/verify.c): the program counter, statements that select on conditions, and single steps. */
module Execution {
  import opened Util
  import opened Ast
  import opened Reduce
  import opened Props

  /** A statement queries conditions before it has any effect; what an effect does is up to the program. */
  datatype Stmt =
    | Act(id: nat)
    | Return(id: nat)
    | Sel(cond: Expr, body: Stmt, nest: Option<Stmt>)

  datatype Block = Block(ndecls: nat, stmts: seq<Stmt>)

  // ---- the program counter ----

  datatype CounterState = Decls | Stmts | AtEnd

  datatype Counter = Counter(s: CounterState, index: nat)

  /** program_counter_state_init */
  function CounterInit(b: Block): Counter {
    Counter(if b.ndecls != 0 then Decls else if |b.stmts| != 0 then Stmts else AtEnd, 0)
  }

  predicate CounterOk(c: Counter, b: Block) {
    match c.s
    case Decls => c.index < b.ndecls
    case Stmts => c.index < |b.stmts|
    case AtEnd => true
  }

  /** program_counter_nextdecl */
  function NextDecl(c: Counter, b: Block): (r: Counter)
    requires CounterOk(c, b) && c.s.Decls?
    ensures CounterOk(r, b) && Remaining(r, b) < Remaining(c, b)
  {
    if c.index + 1 >= b.ndecls then Counter(if |b.stmts| != 0 then Stmts else AtEnd, 0)
    else Counter(Decls, c.index + 1)
  }

  /** program_counter_nextstmt */
  function NextStmt(c: Counter, b: Block, terminal: bool): (r: Counter)
    requires CounterOk(c, b) && c.s.Stmts?
    ensures CounterOk(r, b) && Remaining(r, b) < Remaining(c, b)
  {
    if terminal then Counter(AtEnd, c.index)
    else if c.index + 1 >= |b.stmts| then Counter(AtEnd, c.index + 1)
    else Counter(Stmts, c.index + 1)
  }

  /** How many declarations and statements are still ahead. */
  function Remaining(c: Counter, b: Block): nat
    requires CounterOk(c, b)
  {
    match c.s
    case Decls => b.ndecls - c.index + |b.stmts|
    case Stmts => |b.stmts| - c.index
    case AtEnd => 0
  }

  // ---- a program and its execution states ----

  datatype Error = UserError(message: string) | Crash

  /** A state of execution; `world` is everything the effects of statements work on. */
  datatype Exec<W> = Exec(pc: Counter, env: Env, world: W, props: seq<Expr>)

  /** The function to verify. Declarations, effects, set-up and audit are given. */
  datatype Program<!W> = Program(
    abs: Block,
    body: Block,
    initAbstract: Result<(Env, W, seq<Expr>), Error>,
    initActual: seq<Expr> -> Result<(Env, W), Error>,
    declare: (bool, nat, Env, W) -> (Env, W),
    run: (bool, nat, Env, W) -> Result<(Env, W), Error>,
    audit: (Exec<W>, Exec<W>) -> bool)

  function BlockOf<W>(p: Program<W>, abstract_: bool): Block {
    if abstract_ then p.abs else p.body
  }

  datatype Stepped<W> = Done(x: Exec<W>) | Split(cond: Expr, x: Exec<W>) | Failed(error: Error)

  /** ast_stmt_process: selections decide on the propositions, and only then is there an effect. */
  function ExecStmt<W>(p: Program<W>, abstract_: bool, stmt: Stmt, x: Exec<W>): Stepped<W>
    decreases stmt
  {
    match stmt
    case Act(id) => Effect(p, abstract_, id, x)
    case Return(id) => Effect(p, abstract_, id, x)
    case Sel(cond, body, nest) =>
      var next := x.(env := PfReduce(cond, x.env).env);
      match SelDecide(cond, x.env, x.props)
      case True => ExecStmt(p, abstract_, body, next)
      case False => if nest.Some? then ExecStmt(p, abstract_, nest.value, next) else Done(next)
      case Undecided(c) => Split(c, next)
      case Fails(name) => Failed(UserError(name))
      case Crashes => Failed(Crash)
  }

  function Effect<W>(p: Program<W>, abstract_: bool, id: nat, x: Exec<W>): Stepped<W> {
    match p.run(abstract_, id, x.env, x.world)
    case Ok(next) => Done(x.(env := next.0, world := next.1))
    case Err(e) => Failed(e)
  }

  /** ast_stmt_isterminal, asked after the statement; a condition undecided by then fails an assertion. */
  function IsTerminal(stmt: Stmt, env: Env, props: seq<Expr>): Option<bool>
    decreases stmt
  {
    match stmt
    case Act(_) => Some(false)
    case Return(_) => Some(true)
    case Sel(cond, body, _) =>
      match SelDecide(cond, env, props)
      case True => IsTerminal(body, PfReduce(cond, env).env, props)
      case False => Some(false)
      case _ => None
  }

  /** state_step: the counter moves only when the step succeeds. */
  function StepExec<W>(p: Program<W>, abstract_: bool, x: Exec<W>): Stepped<W>
    requires CounterOk(x.pc, BlockOf(p, abstract_)) && !x.pc.s.AtEnd?
  {
    var b := BlockOf(p, abstract_);
    if x.pc.s.Decls? then
      var next := p.declare(abstract_, x.pc.index, x.env, x.world);
      Done(x.(pc := NextDecl(x.pc, b), env := next.0, world := next.1))
    else
      var stmt := b.stmts[x.pc.index];
      match ExecStmt(p, abstract_, stmt, x)
      case Done(y) =>
        (match IsTerminal(stmt, y.env, y.props)
         case Some(t) => Done(y.(pc := NextStmt(x.pc, b, t)))
         case None => Failed(Crash))
      case other => other
  }

  // ---- the order of a block ----

  /** The i-th step of the run is completed. */
  ghost predicate Took<W>(p: Program<W>, abstract_: bool, xs: seq<Exec<W>>, i: int) {
    && 0 <= i < |xs| - 1 && CounterOk(xs[i].pc, BlockOf(p, abstract_)) && !xs[i].pc.s.AtEnd?
    && StepExec(p, abstract_, xs[i]) == Done(xs[i + 1])
  }

  /** A run of completed steps from the start of a block. */
  ghost predicate BlockRun<W>(p: Program<W>, abstract_: bool, xs: seq<Exec<W>>) {
    && |xs| > 0 && xs[0].pc == CounterInit(BlockOf(p, abstract_))
    && forall i :: 0 <= i < |xs| - 1 ==> Took(p, abstract_, xs, i)
  }

  /** After k steps the first k declarations and statements are done, and the next is the k-th; it is the end when none
      is left or the statement just executed ends the block. */
  ghost predicate InOrder<W>(b: Block, xs: seq<Exec<W>>, k: nat)
    requires k < |xs|
  {
    if k < b.ndecls then xs[k].pc == Counter(Decls, k)
    else
      var n := k - b.ndecls;
      && n <= |b.stmts|
      && xs[k].pc == if n > 0 && IsTerminal(b.stmts[n - 1], xs[k].env, xs[k].props) == Some(true)
                     then Counter(AtEnd, n - 1) else Counter(if n == |b.stmts| then AtEnd else Stmts, n)
  }

  /** What the k-th step did: the k-th declaration, or the statement after the declarations in that place. */
  ghost predicate Performed<W>(p: Program<W>, abstract_: bool, xs: seq<Exec<W>>, k: nat)
    requires k < |xs| - 1
  {
    var b, x, y := BlockOf(p, abstract_), xs[k], xs[k + 1];
    if k < b.ndecls then y == x.(pc := y.pc, env := y.env, world := y.world) &&
                          (y.env, y.world) == p.declare(abstract_, k, x.env, x.world)
    else k - b.ndecls < |b.stmts| && ExecStmt(p, abstract_, b.stmts[k - b.ndecls], x) == Done(y.(pc := x.pc))
  }

  /** A block is executed in order, each declaration and each statement once, up to the first statement that ends it. */
  lemma {:induction false} BlockInOrder<W>(p: Program<W>, abstract_: bool, xs: seq<Exec<W>>, k: nat)
    requires BlockRun(p, abstract_, xs) && k < |xs|
    ensures InOrder(BlockOf(p, abstract_), xs, k)
    ensures k < |xs| - 1 ==> Performed(p, abstract_, xs, k)
  {
    hide ExecStmt, IsTerminal, Remaining;
    var b := BlockOf(p, abstract_);
    if k > 0 {
      BlockInOrder(p, abstract_, xs, k - 1);
      assert Took(p, abstract_, xs, k - 1);
      if k > b.ndecls {
        SplitKeepsCounter(p, abstract_, b.stmts[k - 1 - b.ndecls], xs[k - 1]);
      }
    }
    if k < |xs| - 1 {
      assert Took(p, abstract_, xs, k);
      if k >= b.ndecls {
        SplitKeepsCounter(p, abstract_, b.stmts[k - b.ndecls], xs[k]);
      }
    }
  }

  /** A step that is not completed leaves the counter where it was. */
  lemma {:induction false} SplitKeepsCounter<W>(p: Program<W>, abstract_: bool, stmt: Stmt, x: Exec<W>)
    ensures match ExecStmt(p, abstract_, stmt, x)
            case Done(y) => y.pc == x.pc && y.props == x.props
            case Split(_, y) => y.pc == x.pc && y.props == x.props && y.world == x.world
            case Failed(_) => true
    decreases stmt
  {
    match stmt
    case Sel(cond, body, nest) =>
      var next := x.(env := PfReduce(cond, x.env).env);
      SplitKeepsCounter(p, abstract_, body, next);
      if nest.Some? {
        SplitKeepsCounter(p, abstract_, nest.value, next);
      }
    case _ =>
  }
}
