/** Programs that verification accepts although executing them leads to states that fail the audit. */
module Misjudged {
  import opened Util
  import opened Ast
  import opened Reduce
  import opened Props
  import opened Execution
  import opened Paths
  import opened Reference

  // ---- a run without splits ----

  /** A program whose abstract is empty, and what its body starts from. */
  ghost predicate BodyOnly<W>(p: Program<W>, env: Env, w: W) {
    && p.abs == Block(0, []) && p.body.ndecls == 0 && |p.body.stmts| > 0
    && p.initAbstract == Ok((env, w, [])) && forall props :: p.initActual(props) == Ok((env, w))
  }

  function AbstractEnd<W>(env: Env, w: W): Exec<W> {
    Exec(Counter(AtEnd, 0), env, w, [])
  }

  /** The states of the body, from the first statement to the end. */
  ghost predicate BodyRun<W>(p: Program<W>, env: Env, w: W, xs: seq<Exec<W>>) {
    && |xs| > 0 && xs[0] == Exec(Counter(Stmts, 0), env, w, []) && xs[|xs| - 1].pc.s.AtEnd?
    && forall i :: 0 <= i < |xs| - 1 ==> BodyStep(p, xs, i)
  }

  ghost predicate BodyStep<W>(p: Program<W>, xs: seq<Exec<W>>, i: int) {
    && 0 <= i < |xs| - 1 && xs[i].pc.s.Stmts? && CounterOk(xs[i].pc, p.body)
    && StepExec(p, false, xs[i]) == Done(xs[i + 1])
  }

  function InBody<W>(env: Env, w: W, x: Exec<W>): Tree<W> {
    Leaf([], Actual, Some(AbstractEnd(env, w)), Some(x))
  }

  lemma BodyStarts<W>(p: Program<W>, env: Env, w: W, x: Exec<W>)
    requires BodyOnly(p, env, w) && x == Exec(Counter(Stmts, 0), env, w, [])
    ensures TreeOk(p, InBody(env, w, x)) && After(p, Start(), 2) == Ok(InBody(env, w, x))
  {
    var first: Tree<W> := Leaf([], Abstract, Some(AbstractEnd(env, w)), None);
    assert Step(p, Start()) == Ok(first);
    AfterStep(p, Start(), first, 1);
    AfterStep(p, first, InBody(env, w, x), 0);
  }

  lemma {:induction false} BodyAfter<W>(p: Program<W>, env: Env, w: W, xs: seq<Exec<W>>, i: nat)
    requires BodyOnly(p, env, w) && BodyRun(p, env, w, xs) && i < |xs|
    ensures TreeOk(p, InBody(env, w, xs[i])) && After(p, Start(), i + 2) == Ok(InBody(env, w, xs[i]))
  {
    if i == 0 {
      BodyStarts(p, env, w, xs[0]);
    } else {
      BodyAfter(p, env, w, xs, i - 1);
      assert BodyStep(p, xs, i - 1);
      AfterOneMore(p, Start(), i + 1);
    }
  }

  /** Such a run is verified when the audit accepts its last state. */
  lemma BodyIsVerified<W>(p: Program<W>, env: Env, w: W, xs: seq<Exec<W>>)
    requires BodyOnly(p, env, w) && BodyRun(p, env, w, xs) && p.audit(xs[|xs| - 1], AbstractEnd(env, w))
    ensures var r := After(p, Start(), |xs| + 2); r.Ok? && AllEnded(r.value)
  {
    BodyAfter(p, env, w, xs, |xs| - 1);
    AfterOneMore(p, Start(), |xs| + 1);
  }

  /** Verification succeeds after n rounds, and the truth assignment is possible, but the states that executing the
      abstract and the body with its answers leads to do not pass the audit. */
  ghost predicate WronglyVerified<W(!new)>(p: Program<W>, n: nat, sigma: Expr -> bool) {
    && After(p, Start(), n).Ok? && AllEnded(After(p, Start(), n).value) && SatisfiesAll(sigma, Root(p))
    && forall abs, act :: BothDone(p, Some(abs), Some(act), sigma) ==> !p.audit(act, abs)
  }

  /** The states of the reference execution are unique. */
  lemma WrongWhere<W(!new)>(p: Program<W>, env: Env, w: W, xs: seq<Exec<W>>, sigma: Expr -> bool, end: Bare<W>)
    requires BodyOnly(p, env, w) && BodyRun(p, env, w, xs) && p.audit(xs[|xs| - 1], AbstractEnd(env, w))
    requires DirectRun(p, false, Bare(env, w), sigma) == Ok(end)
    requires forall abs, act :: BareOf(act) == end ==> !p.audit(act, abs)
    ensures WronglyVerified(p, |xs| + 2, sigma)
  {
    BodyIsVerified(p, env, w, xs);
  }

  // ---- a guessed negation ----

  function GuessEnv(): Env {
    Env(map["x" := Some(Sync(Identifier("$0")))], {"$0"}, [])
  }

  /** "if (!x) ...", where x is the symbol `$0`; the audit asks that the branch was taken. */
  function GuessProgram(): Program<bool> {
    Program(Block(0, []), Block(0, [Sel(Not(Identifier("x")), Act(0), None)]), Ok((GuessEnv(), false, [])),
            props => Ok((GuessEnv(), false)), (a, i, env, w) => (env, w), (a, id, env, w) => Ok((env, true)),
            (act: Exec<bool>, abs: Exec<bool>) => act.world)
  }

  predicate GuessOk(env: Env) {
    env.vars == GuessEnv().vars && env.vconsts == {"$0"}
  }

  lemma GuessIsGoverned()
    ensures Governed(GuessProgram(), GuessOk)
  {
    assert !Hash("x");
    forall env | GuessOk(env)
      ensures NormalEnv(env) && CondsOk(GuessProgram().body.stmts[0], env.vconsts)
    {
    }
  }

  /** It is verified, although x may be true. */
  lemma GuessIsVerified(sigma: Expr -> bool)
    requires sigma(Identifier("$0"))
    ensures Governed(GuessProgram(), GuessOk) && WronglyVerified(GuessProgram(), 4, sigma)
  {
    GuessIsGoverned();
    var p, x := GuessProgram(), Exec(Counter(Stmts, 0), GuessEnv(), false, []);
    var y := Exec(Counter(AtEnd, 1), GuessEnv(), true, []);
    NegatedGuessMisleads(p, false, x, sigma);
    assert IsTerminal(p.body.stmts[0], GuessEnv(), []) == Some(false);
    var xs := [x, y];
    assert BodyStep(p, xs, 0);
    WrongWhere(p, GuessEnv(), false, xs, sigma, Bare(GuessEnv(), false));
  }

  // ---- a return in an else-branch ----

  function EmptyEnv(): Env {
    Env(map[], {}, [])
  }

  /** "if (0) ...; else return ...; ...", where the audit asks that the last statement was executed. */
  function ElseProgram(): Program<bool> {
    Program(Block(0, []), Block(0, [Sel(Constant(0), Act(0), Some(Return(1))), Act(2)]), Ok((EmptyEnv(), false, [])),
            props => Ok((EmptyEnv(), false)), (a, i, env, w) => (env, w), (a, id, env, w) => Ok((env, w || id == 2)),
            (act: Exec<bool>, abs: Exec<bool>) => act.world)
  }

  predicate EmptyOk(env: Env) {
    env.vars == map[]
  }

  lemma ElseIsGoverned()
    ensures Governed(ElseProgram(), EmptyOk)
  {
    forall env | EmptyOk(env)
      ensures NormalEnv(env) && CondsOk(ElseProgram().body.stmts[0], env.vconsts)
    {
    }
  }

  /** It is verified, although the statement after the return is never executed. */
  lemma ElseIsVerified(sigma: Expr -> bool)
    ensures Governed(ElseProgram(), EmptyOk) && WronglyVerified(ElseProgram(), 5, sigma)
  {
    ElseIsGoverned();
    var p, x := ElseProgram(), Exec(Counter(Stmts, 0), EmptyEnv(), false, []);
    var y := x.(pc := Counter(Stmts, 1));
    var z := Exec(Counter(AtEnd, 2), EmptyEnv(), true, []);
    ElseReturnIsMissed(p, x, sigma);
    var xs := [x, y, z];
    assert StepExec(p, false, x) == Done(y);
    assert StepExec(p, false, y) == Done(z);
    assert BodyStep(p, xs, 0) && BodyStep(p, xs, 1);
    WrongWhere(p, EmptyEnv(), false, xs, sigma, Bare(EmptyEnv(), false));
  }

  // ---- a return that changes its condition ----

  function XEnv(k: int): Env {
    Env(map["x" := Some(Int(k))], {}, [])
  }

  /** "if (x) return ...; ...", where x is 1 and the return sets it to 0; the audit asks that the last statement was
      executed. */
  function ChangeProgram(): Program<bool> {
    Program(Block(0, []), Block(0, [Sel(Identifier("x"), Return(0), None), Act(1)]), Ok((XEnv(1), false, [])),
            props => Ok((XEnv(1), false)), (a, i, env, w) => (env, w),
            (a, id, env, w) => Ok((if id == 0 then XEnv(0) else env, w || id == 1)),
            (act: Exec<bool>, abs: Exec<bool>) => act.world)
  }

  predicate XOk(env: Env) {
    env.vars == XEnv(0).vars || env.vars == XEnv(1).vars
  }

  lemma ChangeIsGoverned()
    ensures Governed(ChangeProgram(), XOk)
  {
    assert !Hash("x");
    forall env | XOk(env)
      ensures NormalEnv(env) && CondsOk(ChangeProgram().body.stmts[0], env.vconsts)
    {
    }
  }

  /** It is verified all the same. */
  lemma ChangeIsVerified(sigma: Expr -> bool)
    ensures Governed(ChangeProgram(), XOk) && WronglyVerified(ChangeProgram(), 5, sigma)
  {
    ChangeIsGoverned();
    var p, x := ChangeProgram(), Exec(Counter(Stmts, 0), XEnv(1), false, []);
    var y := Exec(Counter(Stmts, 1), XEnv(0), false, []);
    var z := Exec(Counter(AtEnd, 2), XEnv(0), true, []);
    ChangedAnswerIsMissed(p, x, sigma);
    var xs := [x, y, z];
    assert StepExec(p, false, x) == Done(y);
    assert StepExec(p, false, y) == Done(z);
    assert BodyStep(p, xs, 0) && BodyStep(p, xs, 1);
    WrongWhere(p, XEnv(1), false, xs, sigma, Bare(XEnv(0), false));
  }
}
