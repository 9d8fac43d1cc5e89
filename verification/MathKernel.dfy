/** The linear arithmetic kernel of src/math/math.c: expressions are compared through tallies,
    an ordered map from variables to coefficients together with a constant. */
module MathKernel {
  import opened Util

  datatype MathExpr =
    | Nat(i: nat)
    | Var(v: string)
    | Sum(e1: MathExpr, e2: MathExpr)
    | Neg(negated: MathExpr)

  /** The value of each variable; a variable the map leaves out has value 0. */
  type Valuation = map<string, int>

  function At(rho: Valuation, v: string): int {
    if v in rho then rho[v] else 0
  }

  function Eval(e: MathExpr, rho: Valuation): int {
    match e
    case Nat(i) => i
    case Var(v) => At(rho, v)
    case Sum(a, b) => Eval(a, rho) + Eval(b, rho)
    case Neg(a) => -Eval(a, rho)
  }

  type Coeffs = seq<Entry<int>>

  datatype Tally = Tally(coeffs: Coeffs, num: int)

  /** map_get read as a number: an absent variable has coefficient 0. */
  function Coeff(m: Coeffs, v: string): int {
    match Lookup(m, v)
    case None => 0
    case Some(c) => c
  }

  /** m with c added to the coefficient of v. */
  function Bump(m: Coeffs, v: string, c: int): Coeffs {
    Put(m, v, Coeff(m, v) + c)
  }

  function AddAll(m1: Coeffs, m2: Coeffs): Coeffs
    decreases |m2|
  {
    if m2 == [] then m1
    else AddAll(Bump(m1, m2[0].key, m2[0].value), m2[1..])
  }

  function Negated(m: Coeffs): (r: Coeffs)
    ensures |r| == |m| && forall i :: 0 <= i < |m| ==> r[i] == Entry(m[i].key, -m[i].value)
  {
    seq(|m|, i requires 0 <= i < |m| => Entry(m[i].key, -m[i].value))
  }

  function TallyOf(e: MathExpr): Tally {
    match e
    case Nat(i) => Tally([], i)
    case Var(v) => Tally([Entry(v, 1)], 0)
    case Sum(a, b) =>
      var ta, tb := TallyOf(a), TallyOf(b);
      Tally(AddAll(ta.coeffs, tb.coeffs), ta.num + tb.num)
    case Neg(a) =>
      var t := TallyOf(a);
      Tally(Negated(t.coeffs), -t.num)
  }

  // ---- the tally is the value ----

  function Term(e: Entry<int>, rho: Valuation): int {
    e.value * At(rho, e.key)
  }

  function Dot(m: Coeffs, rho: Valuation): int {
    if m == [] then 0 else Term(m[0], rho) + Dot(m[1..], rho)
  }

  function TallyValue(t: Tally, rho: Valuation): int {
    Dot(t.coeffs, rho) + t.num
  }

  lemma {:induction false} DotAppend(a: Coeffs, b: Coeffs, rho: Valuation)
    ensures Dot(a + b, rho) == Dot(a, rho) + Dot(b, rho)
  {
    if a == [] {
      assert a + b == b;
    } else {
      assert (a + b)[1..] == a[1..] + b;
      DotAppend(a[1..], b, rho);
    }
  }

  lemma DotSnoc(m: Coeffs, e: Entry<int>, rho: Valuation)
    ensures Dot(m + [e], rho) == Dot(m, rho) + Term(e, rho)
  {
    DotAppend(m, [e], rho);
    assert [e][1..] == [];
  }

  lemma DotSplit(m: Coeffs, i: nat, rho: Valuation)
    requires i < |m|
    ensures Dot(m, rho) == Dot(m[..i], rho) + Term(m[i], rho) + Dot(m[i + 1..], rho)
  {
    assert m == m[..i] + m[i..];
    DotAppend(m[..i], m[i..], rho);
    assert m[i..][1..] == m[i + 1..];
  }

  lemma DotBump(m: Coeffs, v: string, c: int, rho: Valuation)
    ensures Dot(Bump(m, v, c), rho) == Dot(m, rho) + Term(Entry(v, c), rho)
  {
    var i := Find(m, v);
    if i == -1 {
      DotSnoc(m, Entry(v, c), rho);
    } else {
      var r := m[i := Entry(v, m[i].value + c)];
      DotSplit(m, i, rho);
      DotSplit(r, i, rho);
      assert r[..i] == m[..i] && r[i + 1..] == m[i + 1..];
      TermAdd(v, m[i].value, c, rho);
    }
  }

  lemma TermAdd(v: string, a: int, c: int, rho: Valuation)
    ensures Term(Entry(v, a + c), rho) == Term(Entry(v, a), rho) + Term(Entry(v, c), rho)
  {
  }

  lemma {:induction false} DotAddAll(m1: Coeffs, m2: Coeffs, rho: Valuation)
    requires DistinctKeys(m1)
    ensures DistinctKeys(AddAll(m1, m2))
    ensures Dot(AddAll(m1, m2), rho) == Dot(m1, rho) + Dot(m2, rho)
    decreases |m2|
  {
    if m2 != [] {
      var v, c := m2[0].key, m2[0].value;
      DotBump(m1, v, c, rho);
      PutLookup(m1, v, Coeff(m1, v) + c);
      DotAddAll(Bump(m1, v, c), m2[1..], rho);
    }
  }

  lemma {:induction false} DotNegated(m: Coeffs, rho: Valuation)
    ensures Dot(Negated(m), rho) == -Dot(m, rho)
  {
    if m != [] {
      assert Negated(m)[1..] == Negated(m[1..]);
      DotNegated(m[1..], rho);
    }
  }

  /** A tally has one slot per variable and the same value as its expression, under every valuation. */
  lemma {:induction false} TallyPreservesValue(e: MathExpr, rho: Valuation)
    ensures DistinctKeys(TallyOf(e).coeffs)
    ensures TallyValue(TallyOf(e), rho) == Eval(e, rho)
  {
    match e
    case Nat(_) =>
    case Var(v) => DotSnoc([], Entry(v, 1), rho); assert [] + [Entry(v, 1)] == [Entry(v, 1)];
    case Sum(a, b) =>
      TallyPreservesValue(a, rho);
      TallyPreservesValue(b, rho);
      DotAddAll(TallyOf(a).coeffs, TallyOf(b).coeffs, rho);
    case Neg(a) =>
      TallyPreservesValue(a, rho);
      DotNegated(TallyOf(a).coeffs, rho);
  }

  // ---- the variables of a tally ----

  predicate Mentions(e: MathExpr, v: string) {
    match e
    case Nat(_) => false
    case Var(w) => w == v
    case Sum(a, b) => Mentions(a, v) || Mentions(b, v)
    case Neg(a) => Mentions(a, v)
  }

  function Keys(m: Coeffs): (r: seq<string>)
    ensures |r| == |m| && forall i :: 0 <= i < |m| ==> r[i] == m[i].key
  {
    seq(|m|, i requires 0 <= i < |m| => m[i].key)
  }

  /** The names of b that a does not have yet, after those of a. */
  function Merged(a: seq<string>, b: seq<string>): seq<string>
    decreases |b|
  {
    if b == [] then a else Merged(if b[0] in a then a else a + [b[0]], b[1..])
  }

  /** The variables in the order in which they first occur. */
  function Variables(e: MathExpr): seq<string> {
    match e
    case Nat(_) => []
    case Var(v) => [v]
    case Sum(a, b) => Merged(Variables(a), Variables(b))
    case Neg(a) => Variables(a)
  }

  lemma {:induction false} MergedElements(a: seq<string>, b: seq<string>)
    requires Distinct(a)
    ensures Distinct(Merged(a, b)) && forall v :: v in Merged(a, b) <==> v in a || v in b
    decreases |b|
  {
    if b != [] {
      MergedElements(if b[0] in a then a else a + [b[0]], b[1..]);
      assert forall v :: v in b <==> v == b[0] || v in b[1..];
    }
  }

  lemma {:induction false} VariablesAreMentioned(e: MathExpr)
    ensures Distinct(Variables(e)) && forall v :: v in Variables(e) <==> Mentions(e, v)
  {
    match e
    case Sum(a, b) =>
      VariablesAreMentioned(a);
      VariablesAreMentioned(b);
      MergedElements(Variables(a), Variables(b));
    case Neg(a) => VariablesAreMentioned(a);
    case _ =>
  }

  lemma BumpKeys(m: Coeffs, v: string, c: int)
    ensures Keys(Bump(m, v, c)) == if v in Keys(m) then Keys(m) else Keys(m) + [v]
  {
    var i := Find(m, v);
    assert i != -1 ==> Keys(m)[i] == v;
  }

  lemma {:induction false} AddAllKeys(m1: Coeffs, m2: Coeffs)
    ensures Keys(AddAll(m1, m2)) == Merged(Keys(m1), Keys(m2))
    decreases |m2|
  {
    if m2 != [] {
      BumpKeys(m1, m2[0].key, m2[0].value);
      AddAllKeys(Bump(m1, m2[0].key, m2[0].value), m2[1..]);
      assert Keys(m2)[1..] == Keys(m2[1..]);
    }
  }

  /** A tally lists exactly the variables its expression mentions, in order of first occurrence, also those whose
      coefficients cancel: the number of slots, which comparisons look at, is the number of variables. */
  lemma {:induction false} TallyListsVariables(e: MathExpr)
    ensures Keys(TallyOf(e).coeffs) == Variables(e) && |TallyOf(e).coeffs| == |Variables(e)|
  {
    match e
    case Nat(_) =>
    case Var(v) =>
    case Sum(a, b) =>
      TallyListsVariables(a);
      TallyListsVariables(b);
      AddAllKeys(TallyOf(a).coeffs, TallyOf(b).coeffs);
    case Neg(a) =>
      TallyListsVariables(a);
      assert Keys(Negated(TallyOf(a).coeffs)) == Keys(TallyOf(a).coeffs);
  }

  // ---- simplification ----

  function FromInt(i: int): MathExpr {
    if i < 0 then Neg(Nat(-i)) else Nat(i)
  }

  function VarSum(id: string, n: nat): MathExpr
    requires n > 0
  {
    if n == 1 then Var(id) else Sum(VarSum(id, n - 1), Var(id))
  }

  function FromVarTally(id: string, num: int): MathExpr
    requires num != 0
  {
    if num < 0 then Neg(VarSum(id, -num)) else VarSum(id, num)
  }

  function NullableSum(e1: Option<MathExpr>, e2: Option<MathExpr>): MathExpr {
    match (e1, e2)
    case (None, None) => FromInt(0)
    case (None, Some(b)) => b
    case (Some(a), None) => a
    case (Some(a), Some(b)) => Sum(a, b)
  }

  /** The sum of the non-zero terms of m, or nothing when there is none. */
  function TermSum(m: Coeffs): Option<MathExpr> {
    if m == [] then None
    else
      var last := m[|m| - 1];
      var before := TermSum(m[..|m| - 1]);
      if last.value == 0 then before
      else Some(NullableSum(before, Some(FromVarTally(last.key, last.value))))
  }

  function FromTally(t: Tally): MathExpr {
    NullableSum(TermSum(t.coeffs), if t.num == 0 then None else Some(FromInt(t.num)))
  }

  function DropZeros(m: Coeffs): Coeffs {
    if m == [] then []
    else
      var last := m[|m| - 1];
      DropZeros(m[..|m| - 1]) + (if last.value == 0 then [] else [last])
  }

  lemma {:induction false} TallyOfVarSum(id: string, n: nat)
    requires n > 0
    ensures TallyOf(VarSum(id, n)) == Tally([Entry(id, n)], 0)
  {
    if n > 1 {
      TallyOfVarSum(id, n - 1);
      var m, one := [Entry(id, n - 1)], [Entry(id, 1)];
      FindUnique(m, 0);
      assert one[1..] == [];
      assert AddAll(Put(m, id, n), one[1..]) == Put(m, id, n) == [Entry(id, n)];
    }
  }

  lemma TallyOfFromVarTally(id: string, num: int)
    requires num != 0
    ensures TallyOf(FromVarTally(id, num)) == Tally([Entry(id, num)], 0)
  {
    TallyOfVarSum(id, if num < 0 then -num else num);
  }

  lemma {:induction false} DropZerosKeeps(m: Coeffs)
    ensures forall e :: e in DropZeros(m) ==> e in m && e.value != 0
  {
    if m != [] {
      DropZerosKeeps(m[..|m| - 1]);
    }
  }

  lemma AddOneNew(m: Coeffs, e: Entry<int>)
    requires forall x :: x in m ==> x.key != e.key
    ensures AddAll(m, [e]) == m + [e]
  {
  }

  lemma {:induction false} TallyOfTermSum(m: Coeffs)
    requires DistinctKeys(m)
    ensures match TermSum(m)
            case None => DropZeros(m) == []
            case Some(e) => TallyOf(e) == Tally(DropZeros(m), 0) && DropZeros(m) != []
  {
    if m != [] {
      var init, last := m[..|m| - 1], m[|m| - 1];
      TallyOfTermSum(init);
      if last.value != 0 {
        TallyOfFromVarTally(last.key, last.value);
        if TermSum(init).Some? {
          DropZerosKeeps(init);
          var d := DropZeros(init);
          assert forall e :: e in d ==> e.key != last.key;
          AddOneNew(d, last);
        }
      }
    }
  }

  lemma {:induction false} TermSumIgnoresZeros(m: Coeffs)
    ensures TermSum(DropZeros(m)) == TermSum(m)
  {
    if m != [] {
      var init, last := m[..|m| - 1], m[|m| - 1];
      TermSumIgnoresZeros(init);
      var d := DropZeros(init);
      if last.value == 0 {
        assert d + [] == d;
      } else {
        assert (d + [last])[..|d|] == d;
      }
    }
  }

  function Simplified(e: MathExpr): MathExpr {
    FromTally(TallyOf(e))
  }

  lemma {:induction false} DotDropZeros(m: Coeffs, rho: Valuation)
    ensures Dot(DropZeros(m), rho) == Dot(m, rho)
  {
    if m != [] {
      hide Dot;
      var init, last := m[..|m| - 1], m[|m| - 1];
      DotDropZeros(init, rho);
      assert m == init + [last];
      DotSnoc(init, last, rho);
      if last.value == 0 {
        assert DropZeros(m) == DropZeros(init);
      } else {
        assert DropZeros(m) == DropZeros(init) + [last];
        DotSnoc(DropZeros(init), last, rho);
      }
    }
  }

  /** The tally of the simplified expression is the original's with its zero coefficients dropped,
      in the same order. */
  lemma SimplifiedTally(e: MathExpr)
    ensures TallyOf(Simplified(e)) == Tally(DropZeros(TallyOf(e).coeffs), TallyOf(e).num)
  {
    TallyPreservesValue(e, map[]);
    TallyOfFromTally(TallyOf(e));
  }

  lemma TallyOfFromTally(t: Tally)
    requires DistinctKeys(t.coeffs)
    ensures TallyOf(FromTally(t)) == Tally(DropZeros(t.coeffs), t.num)
  {
    TallyOfTermSum(t.coeffs);
    TallyOfInt(t.num);
    if TermSum(t.coeffs).Some? && t.num != 0 {
      TallyOfSumWithInt(TermSum(t.coeffs).value, t.num);
    }
  }

  lemma TallyOfInt(n: int)
    ensures TallyOf(FromInt(n)) == Tally([], n)
  {
  }

  lemma TallyOfSumWithInt(e: MathExpr, n: int)
    ensures TallyOf(Sum(e, FromInt(n))) == Tally(TallyOf(e).coeffs, TallyOf(e).num + n)
  {
    TallyOfInt(n);
  }

  lemma SimplifyPreservesValue(e: MathExpr, rho: Valuation)
    ensures Eval(Simplified(e), rho) == Eval(e, rho)
  {
    SimplifiedTally(e);
    TallyPreservesValue(e, rho);
    TallyPreservesValue(Simplified(e), rho);
    DotDropZeros(TallyOf(e).coeffs, rho);
  }

  /** Simplifying twice gives the identical tree. */
  lemma SimplifyIdempotent(e: MathExpr)
    ensures Simplified(Simplified(e)) == Simplified(e)
  {
    SimplifiedTally(e);
    TermSumIgnoresZeros(TallyOf(e).coeffs);
  }

  // ---- comparison ----

  predicate MathLe(e1: MathExpr, e2: MathExpr) {
    var d1, d2 := TallyOf(e1), TallyOf(e2);
    |d1.coeffs| == |d2.coeffs| && d1.num <= d2.num
  }

  predicate MathEq(e1: MathExpr, e2: MathExpr) { MathLe(e1, e2) && MathLe(e2, e1) }

  predicate MathLt(e1: MathExpr, e2: MathExpr) { MathLe(e1, e2) && !MathEq(e1, e2) }

  predicate MathGt(e1: MathExpr, e2: MathExpr) { MathLt(e2, e1) }

  predicate MathGe(e1: MathExpr, e2: MathExpr) { MathLe(e2, e1) }

  ghost predicate Below(e1: MathExpr, e2: MathExpr) {
    forall rho :: Eval(e1, rho) <= Eval(e2, rho)
  }

  ghost predicate TallyBelow(t1: Tally, t2: Tally) {
    forall rho :: TallyValue(t1, rho) <= TallyValue(t2, rho)
  }

  ghost predicate SameCoeffs(m1: Coeffs, m2: Coeffs) {
    forall v :: Coeff(m1, v) == Coeff(m2, v)
  }

  function Without(m: Coeffs, v: string): Coeffs {
    var i := Find(m, v);
    if i == -1 then m else m[..i] + m[i + 1..]
  }

  lemma WithoutShorter(m: Coeffs, v: string)
    ensures |Without(m, v)| <= |m|
    ensures m != [] && m[0].key == v ==> |Without(m, v)| < |m|
  {
  }

  lemma WithoutDot(m: Coeffs, v: string, rho: Valuation)
    ensures Dot(m, rho) == Coeff(m, v) * At(rho, v) + Dot(Without(m, v), rho)
  {
    var i := Find(m, v);
    if i != -1 {
      DotSplit(m, i, rho);
      DotAppend(m[..i], m[i + 1..], rho);
    }
  }

  lemma WithoutCoeff(m: Coeffs, v: string, w: string)
    requires DistinctKeys(m)
    ensures DistinctKeys(Without(m, v))
    ensures Coeff(Without(m, v), w) == if w == v then 0 else Coeff(m, w)
  {
    var r, i := Without(m, v), Find(m, v);
    if i != -1 {
      assert forall x :: 0 <= x < |r| ==> r[x] == m[if x < i then x else x + 1];
      assert DistinctKeys(r);
      FindInRemoved(m, i, r, w);
    }
  }

  lemma FindInRemoved(m: Coeffs, i: nat, r: Coeffs, w: string)
    requires DistinctKeys(m) && DistinctKeys(r) && i < |m| && |r| == |m| - 1
    requires forall x :: 0 <= x < |r| ==> r[x] == m[if x < i then x else x + 1]
    ensures Coeff(r, w) == if w == m[i].key then 0 else Coeff(m, w)
  {
    var j, k := Find(m, w), Find(r, w);
    if k != -1 {
      FindUnique(m, if k < i then k else k + 1);
    } else if j != -1 && j != i {
      FindUnique(r, if j < i then j else j - 1);
    }
  }

  lemma WithoutSameCoeffs(m1: Coeffs, m2: Coeffs, v: string)
    requires DistinctKeys(m1) && DistinctKeys(m2) && SameCoeffs(m1, m2)
    ensures DistinctKeys(Without(m1, v)) && DistinctKeys(Without(m2, v))
    ensures SameCoeffs(Without(m1, v), Without(m2, v))
  {
    WithoutCoeff(m1, v, v);
    WithoutCoeff(m2, v, v);
    forall w
      ensures Coeff(Without(m1, v), w) == Coeff(Without(m2, v), w)
    {
      WithoutCoeff(m1, v, w);
      WithoutCoeff(m2, v, w);
      assert Coeff(m1, w) == Coeff(m2, w);
    }
  }

  lemma {:induction false} SameCoeffsSameDot(m1: Coeffs, m2: Coeffs, rho: Valuation)
    requires DistinctKeys(m1) && DistinctKeys(m2) && SameCoeffs(m1, m2)
    ensures Dot(m1, rho) == Dot(m2, rho)
    decreases |m1| + |m2|
  {
    if |m1| + |m2| > 0 {
      var v := if m1 != [] then m1[0].key else m2[0].key;
      assert Coeff(m1, v) == Coeff(m2, v);
      hide Without, Dot, Coeff, SameCoeffs;
      WithoutShorter(m1, v);
      WithoutShorter(m2, v);
      WithoutDot(m1, v, rho);
      WithoutDot(m2, v, rho);
      WithoutSameCoeffs(m1, m2, v);
      SameCoeffsSameDot(Without(m1, v), Without(m2, v), rho);
    }
  }

  lemma {:induction false} DotAtVariable(m: Coeffs, v: string, n: int)
    requires DistinctKeys(m)
    ensures Dot(m, map[v := n]) == Coeff(m, v) * n
  {
    var rho := map[v := n];
    WithoutDot(m, v, rho);
    WithoutAbsent(m, v);
    DotZero(Without(m, v), v, rho);
  }

  lemma {:induction false} DotZero(m: Coeffs, v: string, rho: Valuation)
    requires Find(m, v) == -1
    requires forall x :: x != v ==> At(rho, x) == 0
    ensures Dot(m, rho) == 0
  {
    if m != [] {
      assert Find(m[1..], v) == -1;
      DotZero(m[1..], v, rho);
    }
  }

  lemma WithoutAbsent(m: Coeffs, v: string)
    requires DistinctKeys(m)
    ensures Find(Without(m, v), v) == -1
  {
  }

  /** One linear expression stays below another under every valuation exactly when their
      coefficients agree and their constants are ordered. */
  lemma LinearOrder(t1: Tally, t2: Tally)
    requires DistinctKeys(t1.coeffs) && DistinctKeys(t2.coeffs)
    ensures TallyBelow(t1, t2) <==> SameCoeffs(t1.coeffs, t2.coeffs) && t1.num <= t2.num
  {
    if SameCoeffs(t1.coeffs, t2.coeffs) {
      forall rho: Valuation
        ensures Dot(t1.coeffs, rho) == Dot(t2.coeffs, rho)
      {
        SameCoeffsSameDot(t1.coeffs, t2.coeffs, rho);
      }
      assert TallyValue(t1, map[]) - TallyValue(t2, map[]) == t1.num - t2.num;
    } else {
      var v :| Coeff(t1.coeffs, v) != Coeff(t2.coeffs, v);
      var c1, c2 := Coeff(t1.coeffs, v), Coeff(t2.coeffs, v);
      var gap := if t1.num <= t2.num then t2.num - t1.num + 1 else 1;
      var n := if c1 > c2 then gap else -gap;
      DotAtVariable(t1.coeffs, v, n);
      DotAtVariable(t2.coeffs, v, n);
      Exceeds(c1, c2, n, gap);
      var rho: Valuation := map[v := n];
      assert TallyValue(t1, rho) > TallyValue(t2, rho);
    }
  }

  lemma Exceeds(c1: int, c2: int, n: int, gap: int)
    requires c1 != c2 && gap > 0 && n == if c1 > c2 then gap else -gap
    ensures c1 * n >= c2 * n + gap
  {
    var d := if c1 > c2 then c1 - c2 else c2 - c1;
    assert c1 * n - c2 * n == (c1 - c2) * n == d * gap;
    assert d * gap >= gap;
  }

  lemma BelowByTally(e1: MathExpr, e2: MathExpr)
    ensures Below(e1, e2) <==> TallyBelow(TallyOf(e1), TallyOf(e2))
  {
    if Below(e1, e2) {
      forall rho: Valuation
        ensures TallyValue(TallyOf(e1), rho) <= TallyValue(TallyOf(e2), rho)
      {
        TallyPreservesValue(e1, rho);
        TallyPreservesValue(e2, rho);
      }
    }
    if TallyBelow(TallyOf(e1), TallyOf(e2)) {
      forall rho: Valuation
        ensures Eval(e1, rho) <= Eval(e2, rho)
      {
        TallyPreservesValue(e1, rho);
        TallyPreservesValue(e2, rho);
        assert TallyValue(TallyOf(e1), rho) <= TallyValue(TallyOf(e2), rho);
      }
    }
  }

  /** math_le compares only how many variables each side mentions. It decides "below under every
      valuation" exactly when that count tells the coefficients' agreement, or the constants already
      settle the answer. */
  lemma MathLeDecidesExactlyWhen(e1: MathExpr, e2: MathExpr)
    ensures
      var d1, d2 := TallyOf(e1), TallyOf(e2);
      (MathLe(e1, e2) <==> Below(e1, e2))
      <==> (d1.num > d2.num || (|d1.coeffs| == |d2.coeffs| <==> SameCoeffs(d1.coeffs, d2.coeffs)))
  {
    var d1, d2 := TallyOf(e1), TallyOf(e2);
    BelowByTally(e1, e2);
    TallyPreservesValue(e1, map[]);
    TallyPreservesValue(e2, map[]);
    LinearOrder(d1, d2);
  }

  /** x <= y is answered true although x = 1, y = 0 refutes it. */
  lemma MathLeConfusesVariables()
    ensures MathLe(Var("x"), Var("y"))
    ensures exists rho :: Eval(Var("x"), rho) > Eval(Var("y"), rho)
  {
    var x, y := "x", "y";
    assert x[0] != y[0];
    var rho: Valuation := map[x := 1];
    assert Eval(Var(x), rho) > Eval(Var(y), rho);
  }

  // ---- the imperative code ----

  lemma AddAllStep(m: Coeffs, m2: Coeffs, i: nat)
    requires i < |m2|
    ensures AddAll(m, m2[i..]) == AddAll(Bump(m, m2[i].key, m2[i].value), m2[i + 1..])
  {
  }

  method CopyMap(m1: Map<int>) returns (m: Map<int>)
    requires m1.Valid()
    ensures fresh(m) && m.Valid() && m.entry == m1.entry
  {
    m := new Map();
    for i := 0 to |m1.entry|
      invariant m.Valid() && m.entry == m1.entry[..i]
    {
      var key := m1.entry[i].key;
      assert forall j :: 0 <= j < i ==> m.entry[j].key != key;
      assert Find(m.entry, key) == -1;
      m.Set(key, m1.entry[i].value);
    }
  }

  method AddEntry(m: Map<int>, e: Entry<int>)
    requires m.Valid()
    modifies m
    ensures m.Valid() && m.entry == Bump(old(m.entry), e.key, e.value)
  {
    var c := m.Get(e.key);
    m.Set(e.key, (if c == None then 0 else c.value) + e.value);
  }

  method MapSum(m1: Map<int>, m2: Map<int>) returns (m: Map<int>)
    requires m1.Valid() && m2.Valid()
    ensures fresh(m) && m.Valid()
    ensures m.entry == AddAll(m1.entry, m2.entry)
  {
    m := CopyMap(m1);
    assert m2.entry[0..] == m2.entry;
    for i := 0 to |m2.entry|
      invariant m.Valid()
      invariant AddAll(m.entry, m2.entry[i..]) == AddAll(m1.entry, m2.entry)
    {
      AddAllStep(m.entry, m2.entry, i);
      AddEntry(m, m2.entry[i]);
    }
  }

  method NegateInPlace(m: Map<int>)
    requires m.Valid()
    modifies m
    ensures m.Valid() && m.entry == Negated(old(m.entry))
  {
    for i := 0 to |m.entry|
      invariant m.Valid() && |m.entry| == |old(m.entry)|
      invariant forall j :: 0 <= j < i ==> m.entry[j] == Negated(old(m.entry))[j]
      invariant forall j :: i <= j < |m.entry| ==> m.entry[j] == old(m.entry)[j]
    {
      var key := m.entry[i].key;
      FindUnique(m.entry, i);
      var c := m.Get(key);
      m.Set(key, -c.value);
    }
  }

  method ComputeTally(e: MathExpr) returns (m: Map<int>, num: int)
    ensures fresh(m) && m.Valid()
    ensures Tally(m.entry, num) == TallyOf(e)
  {
    match e
    case Nat(i) =>
      m := new Map();
      num := i;
    case Var(v) =>
      m := new Map();
      m.Set(v, 1);
      num := 0;
    case Sum(a, b) =>
      var ma, na := ComputeTally(a);
      var mb, nb := ComputeTally(b);
      m := MapSum(ma, mb);
      num := na + nb;
    case Neg(a) =>
      m, num := ComputeTally(a);
      NegateInPlace(m);
      num := -num;
  }

  method ExprFromVarTally(id: string, num: int) returns (e: MathExpr)
    requires num != 0
    ensures e == FromVarTally(id, num)
    decreases num < 0
  {
    if num < 0 {
      e := ExprFromVarTally(id, -num);
      return Neg(e);
    }
    e := Var(id);
    for i := 0 to num - 1
      invariant e == VarSum(id, i + 1)
    {
      e := Sum(e, Var(id));
    }
  }

  method Simplify(raw: MathExpr) returns (expr: MathExpr)
    ensures expr == Simplified(raw)
  {
    var m, num := ComputeTally(raw);
    var acc: Option<MathExpr> := None;
    var es := m.entry;
    for i := 0 to |es|
      invariant acc == TermSum(es[..i])
    {
      assert es[..i + 1][..i] == es[..i];
      var e := es[i];
      if e.value == 0 {
        continue;
      }
      var term := ExprFromVarTally(e.key, e.value);
      acc := Some(NullableSum(acc, Some(term)));
    }
    assert es[..|es|] == es;
    expr := NullableSum(acc, if num == 0 then None else Some(FromInt(num)));
  }

  /** The per-key verdict computed by the loop is overwritten by the length comparison. */
  method VariableTallyEq(m1: Map<int>, m2: Map<int>) returns (res: bool)
    ensures res <==> |m1.entry| == |m2.entry|
  {
    res := false;
    for i := 0 to |m1.entry| {
      var c1 := m1.Get(m1.entry[i].key);
      var c2 := m2.Get(m1.entry[i].key);
      if c1 != c2 {
        res := false;
      }
    }
    res := |m1.entry| == |m2.entry|;
  }

  method CompareLe(e1: MathExpr, e2: MathExpr) returns (b: bool)
    ensures b <==> MathLe(e1, e2)
  {
    var m1, n1 := ComputeTally(e1);
    var m2, n2 := ComputeTally(e2);
    b := VariableTallyEq(m1, m2);
    b := b && n1 <= n2;
  }
}
