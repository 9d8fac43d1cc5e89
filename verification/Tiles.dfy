/** Offsets of objects in a block and the tests on them (src/object/object.c), for offsets and sizes
    that are variable-free expressions. */
module Tiles {
  import opened Util
  import opened Ast
  import opened MathKernel
  import opened ExprMath
  import opened Memory

  /** The offset and the size contain no variable. */
  predicate Concrete(o: Object) {
    Closed(o.offset) && (o.range.Some? ==> Closed(o.range.value.size))
  }

  /** object_size: a value takes one cell. */
  function Size(o: Object): Expr {
    match o.range
    case None => Constant(1)
    case Some(r) => r.size
  }

  /** object_upper */
  function Upper(o: Object): Expr {
    Binary(o.offset, Addition, Size(o))
  }

  function Lo(o: Object): int
    requires Concrete(o)
  {
    Val(o.offset)
  }

  function Hi(o: Object): int
    requires Concrete(o)
  {
    Val(Upper(o))
  }

  predicate In(x: int, o: Object)
    requires Concrete(o)
  {
    Lo(o) <= x < Hi(o)
  }

  /** state_eval on a comparison of two variable-free expressions. */
  predicate Compare(a: Expr, op: BinaryOp, b: Expr)
    requires Closed(a) && Closed(b) && Relational(op)
    ensures Compare(a, op, b) <==> Holds(Val(a), op, Val(b))
  {
    ClosedIsDecidedExactly(a, op, b);
    MathEval(Binary(a, op, b))
  }

  /** object_contains */
  predicate Contains(o: Object, offset: Expr)
    requires Concrete(o) && Closed(offset)
    ensures Contains(o, offset) <==> In(Val(offset), o)
  {
    Compare(o.offset, Le, offset) && Compare(offset, Lt, Upper(o))
  }

  /** object_contains_upperincl */
  predicate ContainsUpperIncl(o: Object, offset: Expr)
    requires Concrete(o) && Closed(offset)
    ensures ContainsUpperIncl(o, offset) <==> Lo(o) <= Val(offset) <= Hi(o)
  {
    Compare(o.offset, Le, offset) && Compare(offset, Le, Upper(o))
  }

  /** object_contig_precedes */
  predicate ContigPrecedes(before: Object, after: Object)
    requires Concrete(before) && Concrete(after)
    ensures ContigPrecedes(before, after) <==> Hi(before) == Lo(after)
  {
    Compare(Upper(before), Eq, after.offset)
  }

  // ---- arrays of objects ----

  ghost predicate ConcreteArr(arr: seq<Object>) {
    forall i :: 0 <= i < |arr| ==> Concrete(arr[i])
  }

  ghost predicate Covered(arr: seq<Object>, x: int)
    requires ConcreteArr(arr)
  {
    exists i :: 0 <= i < |arr| && In(x, arr[i])
  }

  /** No offset lies in two objects. */
  ghost predicate Disjoint(arr: seq<Object>)
    requires ConcreteArr(arr)
  {
    forall i, j, x :: 0 <= i < j < |arr| && In(x, arr[i]) ==> !In(x, arr[j])
  }

  /** i is the first object containing x; -1 says there is none. */
  ghost predicate IsIndex(arr: seq<Object>, x: int, i: int)
    requires ConcreteArr(arr)
  {
    if i == -1 then !Covered(arr, x)
    else 0 <= i < |arr| && In(x, arr[i]) && forall j :: 0 <= j < i ==> !In(x, arr[j])
  }

  method ArrIndex(arr: seq<Object>, offset: Expr) returns (i: int)
    requires ConcreteArr(arr) && Closed(offset)
    ensures IsIndex(arr, Val(offset), i)
  {
    for k := 0 to |arr|
      invariant forall j :: 0 <= j < k ==> !In(Val(offset), arr[j])
    {
      if Contains(arr[k], offset) {
        return k;
      }
    }
    return -1;
  }

  /** i is the first object that contains x or ends at it. */
  ghost predicate IsIndexUpperIncl(arr: seq<Object>, x: int, i: int)
    requires ConcreteArr(arr)
  {
    if i == -1 then forall j :: 0 <= j < |arr| ==> !(Lo(arr[j]) <= x <= Hi(arr[j]))
    else 0 <= i < |arr| && Lo(arr[i]) <= x <= Hi(arr[i]) && forall j :: 0 <= j < i ==> !(Lo(arr[j]) <= x <= Hi(arr[j]))
  }

  method ArrIndexUpperIncl(arr: seq<Object>, offset: Expr) returns (i: int)
    requires ConcreteArr(arr) && Closed(offset)
    ensures IsIndexUpperIncl(arr, Val(offset), i)
  {
    for k := 0 to |arr|
      invariant forall j :: 0 <= j < k ==> !(Lo(arr[j]) <= Val(offset) <= Hi(arr[j]))
    {
      if ContainsUpperIncl(arr[k], offset) {
        return k;
      }
    }
    return -1;
  }

  /** In a disjoint array at most one object answers. */
  lemma IndexUnique(arr: seq<Object>, x: int, i: int, j: int)
    requires ConcreteArr(arr) && Disjoint(arr) && IsIndex(arr, x, i)
    requires 0 <= j < |arr| && In(x, arr[j])
    ensures i == j
  {
  }

  // ---- replacing one object by pieces ----

  function Spliced(arr: seq<Object>, i: nat, pieces: seq<Object>): seq<Object>
    requires i < |arr|
  {
    arr[..i] + pieces + arr[i + 1..]
  }

  /** Pieces tile exactly the offsets of the whole. */
  ghost predicate Tiling(pieces: seq<Object>, lo: int, hi: int)
    requires ConcreteArr(pieces)
  {
    && |pieces| > 0 && Lo(pieces[0]) == lo && Hi(pieces[|pieces| - 1]) == hi
    && (forall k :: 0 <= k < |pieces| ==> Lo(pieces[k]) < Hi(pieces[k]))
    && forall k :: 0 <= k < |pieces| - 1 ==> Joined(pieces, k)
  }

  /** The k-th object ends where the next one starts. */
  ghost predicate Joined(pieces: seq<Object>, k: int)
    requires ConcreteArr(pieces)
  {
    0 <= k < |pieces| - 1 && Hi(pieces[k]) == Lo(pieces[k + 1])
  }

  lemma {:induction false} TilingOrder(pieces: seq<Object>, lo: int, hi: int, j: nat, k: nat)
    requires ConcreteArr(pieces) && Tiling(pieces, lo, hi) && j < k < |pieces|
    ensures Hi(pieces[j]) <= Lo(pieces[k])
    decreases k
  {
    assert Joined(pieces, k - 1);
    if j < k - 1 {
      TilingOrder(pieces, lo, hi, j, k - 1);
    }
  }

  lemma TilingDisjoint(pieces: seq<Object>, lo: int, hi: int)
    requires ConcreteArr(pieces) && Tiling(pieces, lo, hi)
    ensures Disjoint(pieces)
  {
    forall i, j, x | 0 <= i < j < |pieces| && In(x, pieces[i])
      ensures !In(x, pieces[j])
    {
      TilingOrder(pieces, lo, hi, i, j);
    }
  }

  lemma TilingCovers(pieces: seq<Object>, lo: int, hi: int, x: int)
    requires ConcreteArr(pieces) && Tiling(pieces, lo, hi)
    ensures Covered(pieces, x) <==> lo <= x < hi
  {
    var n := |pieces| - 1;
    if k :| 0 <= k < |pieces| && In(x, pieces[k]) {
      if k > 0 {
        TilingOrder(pieces, lo, hi, 0, k);
      }
      if k < n {
        TilingOrder(pieces, lo, hi, k, n);
      }
    }
    if lo <= x < hi {
      var k := 0;
      while k < n && x >= Hi(pieces[k])
        invariant 0 <= k <= n && Lo(pieces[k]) <= x
      {
        assert Joined(pieces, k);
        k := k + 1;
      }
      assert In(x, pieces[k]);
    }
  }

  lemma SplicedElements(arr: seq<Object>, i: nat, pieces: seq<Object>, x: int)
    requires i < |arr| && ConcreteArr(arr) && ConcreteArr(pieces)
    ensures ConcreteArr(Spliced(arr, i, pieces))
    ensures Covered(Spliced(arr, i, pieces), x) <==>
            Covered(pieces, x) || exists k :: 0 <= k < |arr| && k != i && In(x, arr[k])
  {
    var r := Spliced(arr, i, pieces);
    if k :| 0 <= k < |arr| && k != i && In(x, arr[k]) {
      assert r[if k < i then k else k - 1 + |pieces|] == arr[k];
    }
    if k :| 0 <= k < |pieces| && In(x, pieces[k]) {
      assert r[i + k] == pieces[k];
    }
  }

  /** Replacing an object by a tiling of its own offsets covers the same offsets and stays disjoint. */
  lemma SplitKeepsOffsets(arr: seq<Object>, i: nat, pieces: seq<Object>)
    requires i < |arr| && ConcreteArr(arr) && ConcreteArr(pieces) && Disjoint(arr)
    requires Tiling(pieces, Lo(arr[i]), Hi(arr[i]))
    ensures ConcreteArr(Spliced(arr, i, pieces)) && Disjoint(Spliced(arr, i, pieces))
    ensures forall x :: Covered(Spliced(arr, i, pieces), x) <==> Covered(arr, x)
  {
    var r := Spliced(arr, i, pieces);
    TilingDisjoint(pieces, Lo(arr[i]), Hi(arr[i]));
    forall x
      ensures ConcreteArr(r) && (Covered(r, x) <==> Covered(arr, x))
    {
      SplicedElements(arr, i, pieces, x);
      TilingCovers(pieces, Lo(arr[i]), Hi(arr[i]), x);
    }
    forall j, k, x | 0 <= j < k < |r| && In(x, r[j])
      ensures !In(x, r[k])
    {
      TilingCovers(pieces, Lo(arr[i]), Hi(arr[i]), x);
      SplicedOrigin(arr, i, pieces, j, x);
      SplicedOrigin(arr, i, pieces, k, x);
    }
  }

  /** Which old object an element of the spliced array lies in. */
  function Origin(i: nat, n: nat, k: nat): nat {
    if k < i then k else if k < i + n then i else k - n + 1
  }

  lemma SplicedOrigin(arr: seq<Object>, i: nat, pieces: seq<Object>, k: nat, x: int)
    requires i < |arr| && ConcreteArr(arr) && ConcreteArr(pieces) && k < |Spliced(arr, i, pieces)|
    requires Covered(pieces, x) <==> In(x, arr[i])
    ensures Concrete(Spliced(arr, i, pieces)[k])
    ensures Origin(i, |pieces|, k) < |arr|
    ensures In(x, Spliced(arr, i, pieces)[k]) ==> In(x, arr[Origin(i, |pieces|, k)])
    ensures i <= k < i + |pieces| ==> Spliced(arr, i, pieces)[k] == pieces[k - i]
  {
  }
}
