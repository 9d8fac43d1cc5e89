/** The propositions a state assumes (src/props/props.c), the decision of a condition against them
    (src/ast/stmt/verify.c) and the assumptions made when a path splits (src/ast/expr/verify.c). */
module Props {
  import opened Util
  import opened Ast
  import opened Reduce

  function Not(e: Expr): Expr {
    Unary(Bang, e)
  }

  predicate IsNot(e: Expr) {
    e.Unary? && e.op.Bang?
  }

  /** ast_expr_inverted_copy */
  function Inverted(e: Expr, invert: bool): Expr {
    if invert then Not(e) else e
  }

  /** e is the negation of an installed proposition, or its negation is installed. */
  predicate Contradicts(props: seq<Expr>, e: Expr) {
    exists i :: 0 <= i < |props| && (e == Not(props[i]) || Not(e) == props[i])
  }

  /** What props_get answers; a negation counts as known when nothing contradicts it. */
  predicate Get(props: seq<Expr>, e: Expr) {
    if IsNot(e) then !Contradicts(props, e) else e in props
  }

  /** No proposition together with its negation. */
  ghost predicate Coherent(props: seq<Expr>) {
    forall i, j :: 0 <= i < |props| && 0 <= j < |props| ==> props[i] != Not(props[j])
  }

  lemma NeverItsOwnNegation(e: Expr)
    ensures e != Not(e)
  {
    assert Not(e).operand < Not(e);
  }

  /** Installing what is not contradicted keeps the propositions consistent. */
  lemma InstallKeepsCoherent(props: seq<Expr>, e: Expr)
    requires Coherent(props) && !Contradicts(props, e)
    ensures Coherent(props + [e])
  {
    NeverItsOwnNegation(e);
  }

  class Props {
    var prop: seq<Expr>

    ghost predicate Valid()
      reads this
    {
      Coherent(prop) && forall i :: 0 <= i < |prop| ==> Comparable(prop[i])
    }

    constructor ()
      ensures Valid() && prop == []
    {
      prop := [];
    }

    /** props_install, whose assertion demands that nothing contradicts e. */
    method Install(e: Expr)
      requires Valid() && Comparable(e) && !Contradicts(prop, e)
      modifies this
      ensures Valid() && prop == old(prop) + [e]
    {
      InstallKeepsCoherent(prop, e);
      prop := prop + [e];
    }

    method Contradict(p1: Expr) returns (contra: bool)
      requires Valid() && Comparable(p1)
      ensures contra <==> Contradicts(prop, p1)
    {
      var notP1 := Inverted(p1, true);
      for i := 0 to |prop|
        invariant forall j :: 0 <= j < i ==> p1 != Not(prop[j]) && Not(p1) != prop[j]
      {
        var p2, notP2 := prop[i], Inverted(prop[i], true);
        EqualIsStructural(p1, notP2);
        EqualIsStructural(notP1, p2);
        if Equal(p1, notP2) || Equal(notP1, p2) {
          return true;
        }
      }
      return false;
    }

    method Lookup(e: Expr) returns (known: bool)
      requires Valid() && Comparable(e)
      ensures known <==> Get(prop, e)
    {
      if IsNot(e) {
        var contra := Contradict(e);
        return !contra;
      }
      for i := 0 to |prop|
        invariant forall j :: 0 <= j < i ==> e != prop[j]
      {
        EqualIsStructural(e, prop[i]);
        if Equal(e, prop[i]) {
          return true;
        }
      }
      return false;
    }
  }

  // ---- deciding a condition ----

  datatype Decision = True | False | Undecided(cond: Expr) | Fails(name: string) | Crashes

  function Decide(v: Value, props: seq<Expr>): Decision {
    match v
    case Sync(e) => if Get(props, e) then True else if Contradicts(props, e) then False else Undecided(e)
    case Int(k) => if k != 0 then True else False
    case Struct(_) => Crashes
    case _ => Undecided(ToExpr(v).value)
  }

  /** sel_decide: reduce the control expression and look it up. */
  function SelDecide(control: Expr, env: Env, props: seq<Expr>): Decision {
    match PfReduce(control, env).out
    case Val(v) => Decide(v, props)
    case Undefined(name) => Fails(name)
    case Aborts => Crashes
  }

  lemma {:induction false} NormalIsComparable(e: Expr, vconsts: set<string>)
    requires Normal(e, vconsts)
    ensures Comparable(e)
    decreases e
  {
    match e
    case Unary(_, operand) => NormalIsComparable(operand, vconsts);
    case Binary(a, _, b) =>
      NormalIsComparable(a, vconsts);
      NormalIsComparable(b, vconsts);
    case Call(_, args) =>
      forall i | 0 <= i < |args|
        ensures Comparable(args[i])
      {
        NormalIsComparable(args[i], vconsts);
      }
    case Member(root, _) => NormalIsComparable(root, vconsts);
    case _ =>
  }

  method SelDecideIn(control: Expr, env: Env, p: Props) returns (d: Decision, env': Env)
    requires p.Valid() && NormalEnv(env) && NoStrayHash(control, env.vconsts)
    ensures d == SelDecide(control, env, p.prop) && env' == PfReduce(control, env).env
  {
    var res := PfReduce(control, env);
    env' := res.env;
    if res.out.Undefined? {
      return Fails(res.out.name), env';
    }
    if res.out.Aborts? {
      return Crashes, env';
    }
    var v := res.out.v;
    if v.Sync? {
      ReducesToNormal(control, env);
      NormalIsComparable(v.e, env.vconsts);
      var known := p.Lookup(v.e);
      if known {
        return True, env';
      }
      var contra := p.Contradict(v.e);
      if contra {
        return False, env';
      }
    }
    if v.Int? {
      return if v.k != 0 then True else False, env';
    }
    d := if v.Struct? then Crashes else Undecided(ToExpr(v).value);
  }

  /** A symbolic condition that is not a negation is decided exactly by what is installed. */
  lemma DecisionReflectsProps(e: Expr, props: seq<Expr>)
    requires Coherent(props) && !IsNot(e)
    ensures Decide(Sync(e), props) == True <==> e in props
    ensures Decide(Sync(e), props) == False <==> Not(e) in props
    ensures Decide(Sync(e), props) == Undecided(e) <==> e !in props && Not(e) !in props
  {
  }

  /** Once such a condition is decided, assuming more never changes the answer. */
  lemma DecisionIsStable(e: Expr, props: seq<Expr>, more: seq<Expr>)
    requires !IsNot(e) && Coherent(props + more) && !Decide(Sync(e), props).Undecided?
    ensures Decide(Sync(e), props + more) == Decide(Sync(e), props)
  {
    var all := props + more;
    assert Coherent(props) by {
      assert forall i :: 0 <= i < |props| ==> all[i] == props[i];
    }
    DecisionReflectsProps(e, props);
    DecisionReflectsProps(e, all);
    assert e in props ==> e in all;
    assert Not(e) in props ==> Not(e) in all;
  }

  /** A negated condition is never undecided: it is taken to be true unless its operand, or its own negation, is
      installed. */
  lemma NegationIsAlwaysDecided(x: Expr, props: seq<Expr>)
    ensures Decide(Sync(Not(x)), props) ==
            if x in props || Not(Not(x)) in props then False else True
  {
  }

  /** The answer to a negation lasts, whatever is assumed later, if and only if its operand is decided; otherwise it
      is a guess that assuming the operand reverses. */
  lemma NegationIsStableExactlyWhen(x: Expr, props: seq<Expr>)
    requires Coherent(props) && Shallow(props) && !IsNot(x)
    ensures (forall more :: Coherent(props + more) ==>
                              Decide(Sync(Not(x)), props + more) == Decide(Sync(Not(x)), props))
            <==> !Decide(Sync(x), props).Undecided?
  {
    DecisionReflectsProps(x, props);
    NegationIsAlwaysDecided(x, props);
    if Decide(Sync(x), props).Undecided? {
      InstallKeepsCoherent(props, x);
      NegationIsAlwaysDecided(x, props + [x]);
      assert (props + [x])[|props|] == x;
    } else {
      forall more | Coherent(props + more)
        ensures Decide(Sync(Not(x)), props + more) == Decide(Sync(Not(x)), props)
      {
        NegationLasts(x, props, more);
      }
    }
  }

  lemma NegationLasts(x: Expr, props: seq<Expr>, more: seq<Expr>)
    requires Shallow(props) && !IsNot(x) && Coherent(props + more) && (x in props || Not(x) in props)
    ensures Decide(Sync(Not(x)), props + more) == Decide(Sync(Not(x)), props)
  {
    var all := props + more;
    NegationIsAlwaysDecided(x, props);
    NegationIsAlwaysDecided(x, all);
    assert x in props ==> x in all;
    if x !in props {
      var i :| 0 <= i < |props| && props[i] == Not(x);
      assert all[i] == Not(x);
      assert forall j :: 0 <= j < |all| ==> all[i] != Not(all[j]) && all[j] != Not(all[i]);
    }
  }

  /** With nothing assumed, "a" is undecided but "!a" is decided true; assuming "a" later reverses it. */
  lemma NegationGuess()
    ensures Decide(Sync(Identifier("a")), []) == Undecided(Identifier("a"))
    ensures Decide(Sync(Not(Identifier("a"))), []) == True
    ensures Decide(Sync(Not(Identifier("a"))), [Identifier("a")]) == False
  {
    assert Not(Identifier("a")) == Not([Identifier("a")][0]);
  }

  // ---- assuming a condition ----

  datatype Assumption = Installed(props: seq<Expr>, env: Env) | Contradiction(env: Env) | AssumeCrashes

  /** irreducible_assume */
  function Irreducible(e: Expr, value: bool, env: Env, props: seq<Expr>): Assumption {
    var prop := Inverted(e, !value);
    if Contradicts(props, prop) then Contradiction(env) else Installed(props + [prop], env)
  }

  /** irreducible_assume_actual: install unless contradicted; false is a contradiction. */
  method IrreducibleAssume(e: Expr, value: bool, p: Props, ghost env: Env) returns (ok: bool)
    requires p.Valid() && Comparable(e)
    modifies p
    ensures p.Valid()
    ensures Irreducible(e, value, env, old(p.prop)) == if ok then Installed(p.prop, env) else Contradiction(env)
    ensures var prop := if value then e else Not(e);
            && (ok <==> !Contradicts(old(p.prop), prop))
            && p.prop == if ok then old(p.prop) + [prop] else old(p.prop)
  {
    var prop := Inverted(e, !value);
    var contra := p.Contradict(prop);
    if contra {
      return false;
    }
    p.Install(prop);
    return true;
  }

  function IrreducibleValue(out: Outcome, value: bool, env: Env, props: seq<Expr>): Assumption {
    if out.Val? && out.v.Sync? then Irreducible(out.v.e, value, env, props) else AssumeCrashes
  }

  /** reduce_assume; an identifier is evaluated in a copy of the state. */
  function Assume(e: Expr, value: bool, env: Env, props: seq<Expr>): Assumption
    decreases e
  {
    match e
    case Identifier(name) => IrreducibleValue(EvalIdentifier(name, env), value, env, props)
    case Unary(op, operand) => if op.Bang? then Assume(operand, !value, env, props) else AssumeCrashes
    case Bracketed(inner) => Assume(inner, value, env, props)
    case Call(_, _) => IrreducibleValue(PfReduce(e, env).out, value, PfReduce(e, env).env, props)
    case Member(_, _) => IrreducibleValue(PfReduce(e, env).out, value, PfReduce(e, env).env, props)
    case Binary(_, _, _) => IrreducibleValue(PfReduce(e, env).out, value, PfReduce(e, env).env, props)
    case _ => AssumeCrashes
  }

  /** The proposition that assuming e with this value comes down to. */
  function Assumed(e: Expr, value: bool): Expr
    decreases e
  {
    if IsNot(e) then Assumed(e.operand, !value) else Inverted(e, !value)
  }

  /** Under its negations the condition is a name, a call, a member or a binary expression. */
  predicate Assumable(e: Expr)
    decreases e
  {
    if IsNot(e) then Assumable(e.operand)
    else e.Identifier? || e.Call? || e.Member? || e.Binary?
  }

  /** A condition in parameter form is installed as it stands. */
  lemma {:induction false} AssumeInstallsNormal(e: Expr, value: bool, env: Env, props: seq<Expr>)
    requires Normal(e, env.vconsts)
    ensures Assume(e, value, env, props) ==
            if !Assumable(e) then AssumeCrashes
            else if Contradicts(props, Assumed(e, value)) then Contradiction(env)
            else Installed(props + [Assumed(e, value)], env)
    decreases e
  {
    if IsNot(e) {
      AssumeInstallsNormal(e.operand, !value, env, props);
    } else {
      NormalIsFixed(e, env);
    }
  }

  /** No double negation is installed. */
  ghost predicate Shallow(props: seq<Expr>) {
    forall i :: 0 <= i < |props| ==> IsNot(props[i]) ==> !IsNot(props[i].operand)
  }

  lemma {:induction false} AssumedIsShallow(e: Expr, value: bool)
    ensures Shallow([Assumed(e, value)])
    decreases e
  {
    if IsNot(e) {
      AssumedIsShallow(e.operand, !value);
    }
  }

  /** The two assumptions of a split on an undecided symbolic condition never contradict what is known. */
  lemma SplitNeverContradicts(e: Expr, env: Env, props: seq<Expr>)
    requires Normal(e, env.vconsts) && Assumable(e) && Shallow(props)
    requires Decide(Sync(e), props).Undecided?
    ensures !IsNot(e)
    ensures Assume(e, true, env, props) == Installed(props + [e], env)
    ensures Assume(Not(e), true, env, props) == Installed(props + [Not(e)], env)
  {
    NegationIsAlwaysDecided(if IsNot(e) then e.operand else e, props);
    AssumeInstallsNormal(e, true, env, props);
    AssumeInstallsNormal(e, false, env, props);
    assert forall i :: 0 <= i < |props| ==> props[i] != Not(Not(e));
  }

  // ---- truth assignments ----

  /** A truth assignment gives every condition that is not a negation a value. */
  function Satisfies(sigma: Expr -> bool, e: Expr): bool
    decreases e
  {
    if IsNot(e) then !Satisfies(sigma, e.operand) else sigma(e)
  }

  ghost predicate SatisfiesAll(sigma: Expr -> bool, props: seq<Expr>) {
    forall i :: 0 <= i < |props| ==> Satisfies(sigma, props[i])
  }

  lemma {:induction false} AssumedMeans(sigma: Expr -> bool, e: Expr, value: bool)
    ensures Satisfies(sigma, Assumed(e, value)) <==> (Satisfies(sigma, e) == value)
    decreases e
  {
    if IsNot(e) {
      AssumedMeans(sigma, e.operand, !value);
    }
  }

  /** What is assumed under negations and brackets: a name, a call, a member or a binary expression that reduces to a
      symbol. */
  predicate AssumesSymbol(e: Expr, env: Env)
    decreases e
  {
    match e
    case Unary(op, operand) => op.Bang? && AssumesSymbol(operand, env)
    case Bracketed(inner) => AssumesSymbol(inner, env)
    case _ =>
      && (e.Identifier? || e.Call? || e.Member? || e.Binary?)
      && PfReduce(e, env).out.Val? && PfReduce(e, env).out.v.Sync?
  }

  function SymbolOr(out: Outcome, e: Expr): Expr {
    if out.Val? && out.v.Sync? then out.v.e else e
  }

  /** Installing x or its negation makes x have this value; where that is contradicted, x has it nowhere. */
  ghost predicate InstallsTruth(x: Expr, value: bool, props: seq<Expr>) {
    var q := Inverted(x, !value);
    && (forall sigma: Expr -> bool :: Satisfies(sigma, q) <==> (Satisfies(sigma, x) == value))
    && (Contradicts(props, q) ==>
          forall sigma: Expr -> bool :: SatisfiesAll(sigma, props) ==> Satisfies(sigma, x) != value)
  }

  lemma InvertedMeans(x: Expr, value: bool, props: seq<Expr>)
    ensures InstallsTruth(x, value, props)
  {
    var q := Inverted(x, !value);
    forall sigma: Expr -> bool | Contradicts(props, q) && SatisfiesAll(sigma, props)
      ensures !Satisfies(sigma, q)
    {
      ContradictedIsFalse(sigma, props, q);
    }
  }

  /** Assuming e with this value, for any e: one proposition is installed, which is true exactly where e has the value
      under the bindings; or e has it nowhere the propositions hold; or e comes down to no symbol. */
  lemma {:induction false} AssumeMeans(e: Expr, value: bool, env: Env, props: seq<Expr>)
    ensures AssumesSymbol(e, env) ==> PfReduce(e, env).out.Val? && PfReduce(e, env).out.v.Sync?
    ensures var r := PfReduce(e, env);
            match Assume(e, value, env, props)
            case Installed(props', env') =>
              && AssumesSymbol(e, env) && env' == r.env && |props'| == |props| + 1 && props <= props'
              && !Contradicts(props, props'[|props|])
              && forall sigma: Expr -> bool ::
                   Satisfies(sigma, props'[|props|]) <==> (Satisfies(sigma, r.out.v.e) == value)
            case Contradiction(env') =>
              && AssumesSymbol(e, env) && env' == r.env
              && forall sigma: Expr -> bool :: SatisfiesAll(sigma, props) ==> Satisfies(sigma, r.out.v.e) != value
            case AssumeCrashes => !AssumesSymbol(e, env)
    decreases e
  {
    match e
    case Unary(op, operand) =>
      if op.Bang? {
        AssumeMeans(operand, !value, env, props);
      }
    case Bracketed(inner) => AssumeMeans(inner, value, env, props);
    case _ =>
      InvertedMeans(SymbolOr(PfReduce(e, env).out, e), value, props);
  }

  /** What is contradicted is false wherever the propositions hold. */
  lemma ContradictedIsFalse(sigma: Expr -> bool, props: seq<Expr>, e: Expr)
    requires Contradicts(props, e) && SatisfiesAll(sigma, props)
    ensures !Satisfies(sigma, e)
  {
  }

  // ---- when a decision is more than a guess ----

  /** The answer to a reduced condition is what the propositions imply: it is no negation, or its operand is
      installed, or what it comes down to is. */
  predicate Grounded(e: Expr, props: seq<Expr>) {
    !IsNot(e) || e.operand in props || Assumed(e, true) in props
  }

  /** The decision does not contradict the truth value. */
  predicate Agrees(d: Decision, b: bool) {
    (d == True ==> b) && (d == False ==> !b)
  }

  /** A form that is not installed is false in some truth assignment that meets the propositions. */
  lemma FormCanBeFalse(props: seq<Expr>, form: Expr) returns (sigma: Expr -> bool)
    requires Coherent(props) && Shallow(props) && Shallow([form]) && form !in props
    ensures SatisfiesAll(sigma, props) && !Satisfies(sigma, form)
  {
    var x := if IsNot(form) then form.operand else form;
    assert [form][0] == form;
    sigma := k => k in props || (IsNot(form) && k == x);
    forall i | 0 <= i < |props|
      ensures Satisfies(sigma, props[i])
    {
      if IsNot(props[i]) {
        assert forall j :: 0 <= j < |props| ==> props[i] != Not(props[j]);
        assert props[i] == Not(props[i].operand);
      }
    }
  }

  /** The decision of a reduced condition agrees with every truth assignment that meets the propositions if and
      only if it is grounded. For the negation of a condition that is not itself one, this is to say that the
      operand is decided. */
  lemma GroundedExactlyWhen(e: Expr, props: seq<Expr>)
    requires Coherent(props) && Shallow(props)
    ensures (forall sigma: Expr -> bool :: SatisfiesAll(sigma, props) ==>
               Agrees(Decide(Sync(e), props), Satisfies(sigma, e))) <==> Grounded(e, props)
    ensures IsNot(e) && !IsNot(e.operand) ==> (Grounded(e, props) <==> !Decide(Sync(e.operand), props).Undecided?)
  {
    if IsNot(e) && !IsNot(e.operand) {
      DecisionReflectsProps(e.operand, props);
      assert e == Not(e.operand);
      assert Assumed(e, true) == Assumed(e.operand, false) == e;
    }
    if Grounded(e, props) {
      forall sigma: Expr -> bool | SatisfiesAll(sigma, props)
        ensures Agrees(Decide(Sync(e), props), Satisfies(sigma, e))
      {
        GroundedAgrees(e, props, sigma);
      }
    } else {
      assert e == Not(e.operand);
      NegationIsAlwaysDecided(e.operand, props);
      AssumedIsShallow(e, true);
      var sigma := FormCanBeFalse(props, Assumed(e, true));
      AssumedMeans(sigma, e, true);
    }
  }

  lemma GroundedAgrees(e: Expr, props: seq<Expr>, sigma: Expr -> bool)
    requires Coherent(props) && Shallow(props) && SatisfiesAll(sigma, props) && Grounded(e, props)
    ensures Agrees(Decide(Sync(e), props), Satisfies(sigma, e))
  {
    if IsNot(e) {
      assert e == Not(e.operand);
      NegationIsAlwaysDecided(e.operand, props);
      AssumedMeans(sigma, e, true);
    } else {
      DecisionReflectsProps(e, props);
    }
    InstalledHolds(sigma, props);
  }

  lemma InstalledHolds(sigma: Expr -> bool, props: seq<Expr>)
    requires SatisfiesAll(sigma, props)
    ensures forall e :: e in props ==> Satisfies(sigma, e)
  {
  }
}
