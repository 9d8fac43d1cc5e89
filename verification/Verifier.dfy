/** The path as an object whose fields are updated in place (src/path/path.c), and the verify loop over it
    (src/ast/function/function.c). */
module Verifier {
  import opened Util
  import opened Ast
  import opened Reduce
  import opened Props
  import opened Execution
  import opened Paths
  import opened Termination

  datatype PathState = At(phase: Phase) | SplitState

  class Path<W(!new)> {
    const p: Program<W>
    var state: PathState
    var abs: Option<Exec<W>>
    var act: Option<Exec<W>>
    var pTrue: Path?<W>
    var pFalse: Path?<W>
    var assumed: seq<Expr> // the conditions its name records
    ghost var Repr: set<object>

    ghost predicate Valid()
      reads this, Repr
      decreases Repr
    {
      && this in Repr
      && (state.SplitState? ==>
            && pTrue != null && pFalse != null && pTrue in Repr && pFalse in Repr
            && pTrue.Repr <= Repr && pFalse.Repr <= Repr && this !in pTrue.Repr && this !in pFalse.Repr
            && pTrue.Repr !! pFalse.Repr && pTrue.p == p && pFalse.p == p
            && pTrue.Valid() && pFalse.Valid())
    }

    /** The tree below this path, as a value. */
    ghost function View(): Tree<W>
      requires Valid()
      reads this, Repr
      decreases Repr
    {
      match state
      case At(phase) => Leaf(assumed, phase, abs, act)
      case SplitState => Fork(assumed, pTrue.View(), pFalse.View())
    }

    /** A path that is not split and looks like t. */
    ghost predicate IsLeaf(t: Tree<W>)
      reads this
    {
      Repr == {this} && state.At? && t == Leaf(assumed, state.phase, abs, act)
    }

    constructor (p: Program<W>, assumed: seq<Expr>, phase: Phase, abs: Option<Exec<W>>, act: Option<Exec<W>>)
      ensures this.p == p && IsLeaf(Leaf(assumed, phase, abs, act))
    {
      this.p, this.assumed, this.state, this.abs, this.act := p, assumed, At(phase), abs, act;
      this.pTrue, this.pFalse := null, null;
      this.Repr := {this};
    }

    /** path_atend */
    predicate AtEnd()
      requires Valid()
      reads this, Repr
      ensures AtEnd() <==> AllEnded(View())
      decreases Repr
    {
      match state
      case At(phase) => phase.Ended?
      case SplitState => pTrue.AtEnd() && pFalse.AtEnd()
    }

    /** path_copywithcond */
    method CopyWith(cond: Expr) returns (r: Result<Path<W>, Error>)
      requires Valid() && ((state == At(Abstract) && abs.Some?) || (state == At(Actual) && act.Some?))
      ensures match CopyWithCond(assumed, state.phase, abs, act, cond)
              case Err(e) => r == Err(e)
              case Ok(t) => r.Ok? && fresh(r.value) && r.value.p == p && r.value.IsLeaf(t)
    {
      var x := if state.phase.Abstract? then abs.value else act.value;
      var phase := state.phase;
      match Assume(cond, true, x.env, x.props) {
        case AssumeCrashes => return Err(Crash);
        case Installed(props, env) => x := x.(props := props, env := env);
        case Contradiction(env) => x, phase := x.(env := env), Ended;
      }
      var child := new Path(p, assumed + [cond], phase, if state.phase.Abstract? then Some(x) else abs,
                            if state.phase.Abstract? then act else Some(x));
      return Ok(child);
    }

    method BecomeFork(a: Path<W>, b: Path<W>, ghost ta: Tree<W>, ghost tb: Tree<W>)
      requires Valid() && state.At? && a != b && a != this && b != this && a.p == p && b.p == p
      requires a.IsLeaf(ta) && b.IsLeaf(tb)
      modifies this
      ensures Valid() && Repr == {this, a, b} && View() == Fork(old(assumed), ta, tb)
    {
      pTrue, pFalse, state := a, b, SplitState;
      abs, act := None, None;
      Repr := {this, a, b};
    }

    /** path_split */
    method SplitOn(cond: Expr) returns (err: Option<Error>)
      requires Valid() && ((state == At(Abstract) && abs.Some?) || (state == At(Actual) && act.Some?))
      modifies this
      ensures Valid() && fresh(Repr - old(Repr))
      ensures match SplitPath(old(assumed), old(state).phase, old(abs), old(act), cond)
              case Ok(t) => err == None && View() == t
              case Err(e) => err == Some(e)
    {
      ghost var onTrue := CopyWithCond(assumed, state.phase, abs, act, cond);
      ghost var onFalse := CopyWithCond(assumed, state.phase, abs, act, Not(cond));
      var a := CopyWith(cond);
      var b := CopyWith(Not(cond));
      if a.Err? || b.Err? {
        return Some(Crash);
      }
      BecomeFork(a.value, b.value, onTrue.value, onFalse.value);
      return None;
    }

    method InitAbstractState() returns (err: Option<Error>)
      requires Valid() && state.At?
      modifies this
      ensures Valid() && fresh(Repr - old(Repr))
      ensures match InitAbstract(p, old(assumed))
              case Ok(t) => err == None && View() == t
              case Err(e) => err == Some(e)
    {
      match p.initAbstract
      case Err(e) => return Some(e);
      case Ok(s) =>
        abs, act := Some(Exec(CounterInit(p.abs), s.0, s.1, s.2)), None;
        state := At(Abstract);
        return None;
    }

    method InitActualState() returns (err: Option<Error>)
      requires Valid() && state.At? && abs.Some?
      modifies this
      ensures Valid() && fresh(Repr - old(Repr))
      ensures match InitActual(p, old(assumed), old(abs).value)
              case Ok(t) => err == None && View() == t
              case Err(e) => err == Some(e)
    {
      match p.initActual(abs.value.props)
      case Err(e) => return Some(e);
      case Ok(s) =>
        act := Some(Exec(CounterInit(p.body), s.0, s.1, abs.value.props));
        state := At(Actual);
        return None;
    }

    method AuditStates() returns (err: Option<Error>)
      requires Valid() && state.At? && abs.Some? && act.Some?
      modifies this
      ensures Valid() && fresh(Repr - old(Repr))
      ensures match AuditPath(p, old(assumed), old(abs).value, old(act).value)
              case Ok(t) => err == None && View() == t
              case Err(e) => err == Some(e)
    {
      if !p.audit(act.value, abs.value) {
        return Some(UserError("audit"));
      }
      state := At(Ended);
      return None;
    }

    method StepAbstractState() returns (err: Option<Error>)
      requires Valid() && state == At(Abstract) && LeafOk(p, Abstract, abs, act)
      modifies this
      ensures Valid() && fresh(Repr - old(Repr))
      ensures match StepAbstract(p, old(assumed), old(abs).value)
              case Ok(t) => err == None && View() == t
              case Err(e) => err == Some(e)
    {
      if abs.value.pc.s.AtEnd? {
        state := At(Halfway);
        err := InitActualState();
        return;
      }
      match StepExec(p, true, abs.value)
      case Done(x) =>
        abs := Some(x);
        return None;
      case Failed(e) => return Some(e);
      case Split(cond, x) =>
        abs := Some(x);
        err := SplitOn(cond);
    }

    method StepActualState() returns (err: Option<Error>)
      requires Valid() && state == At(Actual) && LeafOk(p, Actual, abs, act)
      modifies this
      ensures Valid() && fresh(Repr - old(Repr))
      ensures match StepActual(p, old(assumed), old(abs).value, old(act).value)
              case Ok(t) => err == None && View() == t
              case Err(e) => err == Some(e)
    {
      if act.value.pc.s.AtEnd? {
        state := At(Audit);
        err := AuditStates();
        return;
      }
      match StepExec(p, false, act.value)
      case Done(x) =>
        act := Some(x);
        return None;
      case Failed(e) => return Some(e);
      case Split(cond, x) =>
        act := Some(x);
        err := SplitOn(cond);
    }

    /** path_step_split: step each side that is not at its end, the true side first. */
    method StepSplit() returns (err: Option<Error>)
      requires Valid() && state.SplitState? && TreeOk(p, View()) && !AllEnded(View())
      modifies Repr
      ensures Valid() && fresh(Repr - old(Repr))
      ensures match Step(p, old(View()))
              case Ok(t) => err == None && View() == t
              case Err(e) => err == Some(e)
      decreases View(), 1
    {
      err := StepTrueSide();
      if err.Some? {
        return;
      }
      err := StepFalseSide();
    }

    method StepTrueSide() returns (err: Option<Error>)
      requires Valid() && state.SplitState? && TreeOk(p, pTrue.View())
      modifies this`Repr, pTrue.Repr
      ensures Valid() && state.SplitState? && fresh(Repr - old(Repr)) && pTrue == old(pTrue) && pFalse == old(pFalse)
      ensures assumed == old(assumed) && pFalse.View() == old(pFalse.View())
      ensures match TryStep(p, old(pTrue.View()))
              case Ok(t) => err == None && pTrue.View() == t
              case Err(e) => err == Some(e)
      decreases pTrue.View(), 4
    {
      err := pTrue.TryStepPath();
      Repr := Repr + pTrue.Repr;
    }

    method StepFalseSide() returns (err: Option<Error>)
      requires Valid() && state.SplitState? && TreeOk(p, pFalse.View())
      modifies this`Repr, pFalse.Repr
      ensures Valid() && state.SplitState? && fresh(Repr - old(Repr)) && pTrue == old(pTrue) && pFalse == old(pFalse)
      ensures assumed == old(assumed) && pTrue.View() == old(pTrue.View())
      ensures match TryStep(p, old(pFalse.View()))
              case Ok(t) => err == None && pFalse.View() == t
              case Err(e) => err == Some(e)
      decreases pFalse.View(), 4
    {
      err := pFalse.TryStepPath();
      Repr := Repr + pFalse.Repr;
    }

    /** path_trystep */
    method TryStepPath() returns (err: Option<Error>)
      requires Valid() && TreeOk(p, View())
      modifies Repr
      ensures Valid() && fresh(Repr - old(Repr))
      ensures match TryStep(p, old(View()))
              case Ok(t) => err == None && View() == t
              case Err(e) => err == Some(e)
      decreases View(), 3
    {
      if AtEnd() {
        return None;
      }
      err := StepPath();
    }

    /** path_step */
    method StepPath() returns (err: Option<Error>)
      requires Valid() && TreeOk(p, View()) && !AllEnded(View())
      modifies Repr
      ensures Valid() && fresh(Repr - old(Repr))
      ensures match Step(p, old(View()))
              case Ok(t) => err == None && View() == t
              case Err(e) => err == Some(e)
      decreases View(), 2
    {
      match state
      case SplitState => err := StepSplit();
      case At(phase) =>
        match phase
        case Uninit => err := InitAbstractState();
        case Abstract => err := StepAbstractState();
        case Halfway => err := InitActualState();
        case Actual => err := StepActualState();
        case Audit => err := AuditStates();
    }
  }

  /** ast_function_verify: step the path until it is at its end. The loop ends because reduced conditions that are
      not pointers come from the finite set u, and a step fails or no path of the run stands at a pointer; by
      LoopEndsExactlyWhen it would not end otherwise. */
  method Verify<W(!new)>(p: Program<W>, ghost ok: Env -> bool, ghost u: set<Expr>) returns (err: Option<Error>)
    requires Governed(p, ok) && PointersApart(p, ok) && Finite(p, ok, u)
    requires EscapesPointers(p)
    ensures exists r :: Ends(p, r) && err == (if r.Ok? then None else Some(r.error))
    ensures err == None ==> exists t :: Ends(p, Ok(t)) && AllAccounted(p, ok, t)
  {
    var path := new Path(p, [], Uninit, None, None);
    ghost var n: nat := 0;
    ghost var end := LoopEndsAfter(p, ok, u);
    while !path.AtEnd()
      invariant path.Valid() && path.p == p && fresh(path.Repr)
      invariant TreeOk(p, path.View()) && After(p, Start(), n) == Ok(path.View()) && n <= end
      decreases end - n
    {
      NotYetEnded(p, end, n, path.View());
      err := path.StepPath();
      n := n + 1;
      if err.Some? {
        assert Ends(p, Err(err.value));
        return;
      }
    }
    err := None;
    assert Ends(p, Ok(path.View()));
    VerifiedTree(p, ok, path.View());
  }

  /** The first rounds of that loop, on any program: the path and the error are those of the same number of steps of
      the tree, and the loop has left off when the tree is at its end. */
  method VerifyRounds<W(!new)>(p: Program<W>, rounds: nat) returns (err: Option<Error>, path: Path<W>)
    ensures match After(p, Start(), rounds)
            case Ok(t) => err == None && path.Valid() && path.View() == t
            case Err(e) => err == Some(e)
  {
    path := new Path(p, [], Uninit, None, None);
    err := None;
    var n: nat := 0;
    while !path.AtEnd() && n < rounds
      invariant path.Valid() && path.p == p && fresh(path.Repr) && n <= rounds && err == None
      invariant TreeOk(p, path.View()) && After(p, Start(), n) == Ok(path.View())
      decreases rounds - n
    {
      AfterOneMore(p, Start(), n);
      err := path.StepPath();
      n := n + 1;
      if err.Some? {
        AfterFailed(p, Start(), n, rounds);
        return;
      }
    }
    AfterMore(p, Start(), n, rounds - n);
  }

  /** Every path passed the audit, and every truth assignment that meets the root's propositions has its path. */
  ghost predicate AllAccounted<W(!new)>(p: Program<W>, ok: Env -> bool, t: Tree<W>) {
    && Inv(p, ok, t) && EndedByAudit(p, t)
    && forall sigma: Expr -> bool :: SatisfiesAll(sigma, Root(p)) ==> Accounted(p, ok, t, sigma)
  }

  lemma VerifiedTree<W(!new)>(p: Program<W>, ok: Env -> bool, t: Tree<W>)
    requires Governed(p, ok) && PointersApart(p, ok) && Ends(p, Ok(t))
    ensures AllAccounted(p, ok, t)
  {
    EveryPathIsAudited(p, ok, t);
    forall sigma: Expr -> bool | SatisfiesAll(sigma, Root(p))
      ensures Accounted(p, ok, t, sigma)
    {
      VerifiedIsAccounted(p, ok, t, sigma);
    }
  }
}
