/** Two programs with a condition whose value is a pointer: one on which the verify loop never ends, and one on which
    it does because a symbol has the pointer's name. */
module PointerPrograms {
  import opened Util
  import opened Ast
  import opened Reduce
  import opened Props
  import opened Execution
  import opened Paths
  import opened Termination

  // ---- a program that is never verified ----

  function PointerEnv(): Env {
    Env(map["p" := Some(Ptr("heap:0"))], {}, [])
  }

  /** An abstract that is the one statement "if (p) ...", where p points at the heap. */
  function PointerProgram(): Program<bool> {
    Program(Block(0, [Sel(Identifier("p"), Act(0), None)]), Block(0, []), Ok((PointerEnv(), true, [])),
            props => Ok((PointerEnv(), true)), (a, i, env, w) => (env, w), (a, id, env, w) => Ok((env, w)),
            (act, abs) => true)
  }

  ghost function PointerOk(): Env -> bool {
    (env: Env) => env == PointerEnv().(pool := env.pool)
  }

  /** Every path stands at the statement, or a contradiction has ended it. */
  predicate PointerTree(t: Tree<bool>)
    decreases t
  {
    match t
    case Leaf(_, phase, abs, act) =>
      || phase.Ended?
      || (phase.Abstract? && act.None? && abs.Some?
            && abs.value == Exec(Counter(Stmts, 0), PointerEnv(), true, abs.value.props))
    case Fork(_, a, b) => PointerTree(a) && PointerTree(b)
  }

  lemma PIsPointer(props: seq<Expr>)
    ensures PfReduce(Identifier("p"), PointerEnv()) == Reduction(Val(Ptr("heap:0")), PointerEnv())
    ensures SelDecide(Identifier("p"), PointerEnv(), props) == Undecided(Identifier(PTR + "heap:0"))
  {
    assert !(PTR <= "p") && !Hash("p");
  }

  lemma {:induction false} PointerTreeSteps(t: Tree<bool>)
    requires PointerTree(t) && TreeOk(PointerProgram(), t) && !AllEnded(t)
    ensures Step(PointerProgram(), t).Ok? && PointerTree(Step(PointerProgram(), t).value)
    decreases t
  {
    var p := PointerProgram();
    match t
    case Leaf(assumed, _, abs, _) =>
      var x, c := abs.value, Identifier(PTR + "heap:0");
      PIsPointer(x.props);
      assert StepExec(p, true, x) == Split(c, x);
      AssumeInstallsNormal(c, true, x.env, x.props);
      AssumeInstallsNormal(Not(c), true, x.env, x.props);
    case Fork(_, a, b) =>
      if !AllEnded(a) {
        PointerTreeSteps(a);
      }
      if !AllEnded(b) {
        PointerTreeSteps(b);
      }
  }

  lemma {:induction false} PointerTreeLasts(t: Tree<bool>, n: nat)
    requires PointerTree(t) && TreeOk(PointerProgram(), t)
    ensures After(PointerProgram(), t, n).Ok?
    decreases n
  {
    if n > 0 && !AllEnded(t) {
      PointerTreeSteps(t);
      StepKeepsOk(PointerProgram(), t);
      PointerTreeLasts(Step(PointerProgram(), t).value, n - 1);
    }
  }

  lemma PointerProgramIsGoverned()
    ensures Governed(PointerProgram(), PointerOk())
  {
    assert !(PTR <= "p") && !Hash("p");
    assert NormalEnv(PointerEnv());
  }

  lemma PointerProgramConds()
    ensures PointersApart(PointerProgram(), PointerOk()) && Finite(PointerProgram(), PointerOk(), {})
  {
    forall env | PointerOk()(env)
      ensures PfReduce(Identifier("p"), env).out == Val(Ptr("heap:0"))
    {
      PIsPointer([]);
    }
  }

  /** After one round the path stands at the pointer. */
  lemma PointerProgramStarts()
    ensures var r := Step(PointerProgram(), Start());
            r.Ok? && PointerTree(r.value) && TreeOk(PointerProgram(), r.value) && AtPointer(PointerProgram(), r.value)
  {
    PIsPointer([]);
    var x := Step(PointerProgram(), Start()).value.abs.value;
    assert AsksPointer(PointerProgram().abs.stmts[0], x.env, x.props);
  }

  /** The program meets everything that LoopEndsExactlyWhen asks, no step fails, and after any number of rounds the
      loop is not at its end. */
  lemma PointerProgramNeverEnds(n: nat)
    ensures Governed(PointerProgram(), PointerOk()) && PointersApart(PointerProgram(), PointerOk())
    ensures Finite(PointerProgram(), PointerOk(), {})
    ensures After(PointerProgram(), Start(), n).Ok? && !AllEnded(After(PointerProgram(), Start(), n).value)
  {
    var p := PointerProgram();
    PointerProgramIsGoverned();
    PointerProgramConds();
    PointerProgramStarts();
    StepKeepsInv(p, PointerOk(), Start());
    if n > 0 {
      PointerTreeLasts(Step(p, Start()).value, n - 1);
      PointerNeverEnds(p, PointerOk(), Step(p, Start()).value, n - 1);
    }
  }

  // ---- why symbols must be told apart from pointers ----

  function NamedEnv(): Env {
    Env(map["q" := Some(Sync(Identifier(PTR + "heap:0"))), "p" := Some(Ptr("heap:0"))], {}, [])
  }

  function NamedStmt(): Stmt {
    Sel(Not(Identifier("q")), Sel(Not(Not(Identifier("q"))), Sel(Identifier("p"), Act(0), None), None), None)
  }

  /** An abstract "if (!q) if (!!q) if (p) ...", where q is a symbol with the name of the pointer p. */
  function NamedProgram(): Program<bool> {
    Program(Block(0, [NamedStmt()]), Block(0, []), Ok((NamedEnv(), true, [])),
            props => Ok((NamedEnv(), true)), (a, i, env, w) => (env, w), (a, id, env, w) => Ok((env, w)),
            (act, abs) => true)
  }

  function NamedExec(s: CounterState, index: nat, props: seq<Expr>): Exec<bool> {
    Exec(Counter(s, index), NamedEnv(), true, props)
  }

  lemma NamedReductions()
    ensures var c := Identifier(PTR + "heap:0");
            && PfReduce(Identifier("p"), NamedEnv()) == Reduction(Val(Ptr("heap:0")), NamedEnv())
            && PfReduce(Not(Identifier("q")), NamedEnv()) == Reduction(Val(Sync(Not(c))), NamedEnv())
            && PfReduce(Not(Not(Identifier("q"))), NamedEnv()) == Reduction(Val(Sync(Not(Not(c)))), NamedEnv())
  {
    assert !(PTR <= "p") && !Hash("p") && !(PTR <= "q") && !Hash("q");
    assert PfReduce(Identifier("q"), NamedEnv()).out == Val(Sync(Identifier(PTR + "heap:0")));
  }

  lemma NamedStep(props: seq<Expr>)
    ensures var c, p := Identifier(PTR + "heap:0"), NamedProgram();
            && (props == [] ==> StepExec(p, true, NamedExec(Stmts, 0, [])) == Split(c, NamedExec(Stmts, 0, [])))
            && (props == [c] || props == [Not(c)] ==>
                  StepExec(p, true, NamedExec(Stmts, 0, props)) == Done(NamedExec(AtEnd, 1, props)))
  {
    var c := Identifier(PTR + "heap:0");
    NamedReductions();
    NegationIsAlwaysDecided(c, props);
    NegationIsAlwaysDecided(Not(c), props);
    assert c != Not(c) && Not(c) != Not(Not(c)) && c != Not(Not(c));
  }

  /** The two sides of the split after k rounds more: in the abstract, at its end, in the body, at the end. */
  function NamedSide(assumed: seq<Expr>, props: seq<Expr>, k: nat): (t: Tree<bool>)
    ensures TreeOk(NamedProgram(), t) && (AllEnded(t) <==> k >= 3)
  {
    var abs := Some(NamedExec(AtEnd, 1, props));
    var act := Some(NamedExec(AtEnd, 0, props));
    if k == 0 then Leaf(assumed, Abstract, Some(NamedExec(Stmts, 0, props)), None)
    else if k == 1 then Leaf(assumed, Abstract, abs, None)
    else if k == 2 then Leaf(assumed, Actual, abs, act)
    else Leaf(assumed, Ended, abs, act)
  }

  lemma NamedSideSteps(assumed: seq<Expr>, props: seq<Expr>, k: nat)
    requires k < 3 && var c := Identifier(PTR + "heap:0"); props == [c] || props == [Not(c)]
    ensures Step(NamedProgram(), NamedSide(assumed, props, k)) == Ok(NamedSide(assumed, props, k + 1))
  {
    NamedStep(props);
  }

  function NamedFork(k: nat): (t: Tree<bool>)
    ensures TreeOk(NamedProgram(), t) && (AllEnded(t) <==> k >= 3)
  {
    var c := Identifier(PTR + "heap:0");
    Fork([], NamedSide([c], [c], k), NamedSide([Not(c)], [Not(c)], k))
  }

  lemma {:induction false} NamedForkEnds(k: nat)
    requires k <= 3
    ensures After(NamedProgram(), NamedFork(k), 3 - k) == Ok(NamedFork(3))
    decreases 3 - k
  {
    if k < 3 {
      var c := Identifier(PTR + "heap:0");
      NamedSideSteps([c], [c], k);
      NamedSideSteps([Not(c)], [Not(c)], k);
      assert Step(NamedProgram(), NamedFork(k)) == Ok(NamedFork(k + 1));
      AfterStep(NamedProgram(), NamedFork(k), NamedFork(k + 1), 2 - k);
      NamedForkEnds(k + 1);
    }
  }

  lemma NamedAtPointer()
    ensures AtPointer(NamedProgram(), NamedSide([], [], 0))
  {
    var c := Identifier(PTR + "heap:0");
    NamedReductions();
    NegationIsAlwaysDecided(c, []);
    NegationIsAlwaysDecided(Not(c), []);
  }

  lemma NamedSplits()
    ensures Step(NamedProgram(), NamedSide([], [], 0)) == Ok(NamedFork(0))
  {
    var c := Identifier(PTR + "heap:0");
    NamedStep([]);
    AssumeInstallsNormal(c, true, NamedEnv(), []);
    AssumeInstallsNormal(Not(c), true, NamedEnv(), []);
    assert [] + [c] == [c] && [] + [Not(c)] == [Not(c)];
  }

  /** A run of n + 2 rounds that stands at a pointer after the first. */
  lemma EndsPastPointer<W>(p: Program<W>, first: Tree<W>, second: Tree<W>, last: Tree<W>, n: nat)
    requires Step(p, Start()) == Ok(first) && !AllEnded(first) && TreeOk(p, first) && AtPointer(p, first)
    requires Step(p, first) == Ok(second) && TreeOk(p, second) && After(p, second, n) == Ok(last) && AllEnded(last)
    ensures AtPointerAfter(p, 1) && EndedAfter(p, n + 2)
  {
    AfterStep(p, Start(), first, 0);
    AfterStep(p, Start(), first, n + 1);
    AfterStep(p, first, second, n);
  }

  lemma NamedStarts()
    ensures Step(NamedProgram(), Start()) == Ok(NamedSide([], [], 0))
  {
  }

  lemma NamedRun(p: Program<bool>, first: Tree<bool>, second: Tree<bool>, last: Tree<bool>)
    requires p == NamedProgram() && first == NamedSide([], [], 0) && second == NamedFork(0) && last == NamedFork(3)
    ensures AtPointerAfter(p, 1) && EndedAfter(p, 5)
  {
    hide AtPointer, AtPointerAfter, EndedAfter, Step, After, NamedProgram;
    assert Step(p, Start()) == Ok(first) && AtPointer(p, first) by {
      NamedStarts();
      NamedAtPointer();
    }
    assert Step(p, first) == Ok(second) && After(p, second, 3) == Ok(last) by {
      NamedSplits();
      NamedForkEnds(0);
    }
    EndsPastPointer(p, first, second, last, 3);
  }

  /** Here a path stands at the pointer after one round and yet the loop ends: each side of the split answers one of
      the enclosing negations the other way. */
  lemma NamedPointerEnds()
    ensures AtPointerAfter(NamedProgram(), 1) && EndedAfter(NamedProgram(), 5)
  {
    NamedRun(NamedProgram(), NamedSide([], [], 0), NamedFork(0), NamedFork(3));
  }
}
