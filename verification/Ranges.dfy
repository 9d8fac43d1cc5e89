/** Allocating and deallocating whole ranges of cells (src/state/block.c). */
module Ranges {
  import opened Util
  import opened Ast
  import opened ExprMath
  import opened Memory
  import opened Ownership
  import opened Tiles
  import opened Allocator

  /** The store after block_range_alloc: one virtual object with its own new heap block. */
  ghost predicate RangeAllocated(st: Store, st': Store, b: Block, lw: Expr, up: Expr, o: Object, nb: Block)
    requires b in st.arr && Closed(lw) && Closed(up)
  {
    && o !in st.locs && o.range == Some(Range(Binary(up, Subtraction, lw), Dynamic(|st.heap|, Constant(0))))
    && o.offset == lw && nb !in st.arr
    && st' == WithObject(WithNewBlock(st, nb), b, 0, o, BlockRef(|st.heap|))
  }

  /** The new object covers exactly [lw, up), and the block is tidy. */
  lemma RangeAllocKeepsTidy(st: Store, st': Store, b: Block, lw: Expr, up: Expr, o: Object, nb: Block)
    requires Tidy(st) && b in st.arr && st.arr[b] == [] && Closed(lw) && Closed(up)
    requires RangeAllocated(st, st', b, lw, up, o, nb)
    ensures Tidy(st') && st'.arr[b] == [o] && forall x :: In(x, o) <==> Val(lw) <= x < Val(up)
  {
    ValOfSum(up, lw);
    ValOfSum(lw, Size(o));
    NewBlockKeeps(st, nb);
    InsertKeeps(WithNewBlock(st, nb), b, 0, o, BlockRef(|st.heap|));
    assert st'.arr[b] == [o];
  }

  /** block_range_alloc, whose assertion demands an empty block. */
  method RangeAlloc(b: Block, lw: Expr, up: Expr, s: State) returns (o: Object, ghost nb: Block)
    requires Ready(s, b) && Closed(lw) && Closed(up) && b.arr == []
    modifies s, s.heap, b
    ensures s.heap == old(s.heap) && fresh(s.Repr - old(s.Repr)) && Ready(s, b)
    ensures RangeAllocated(old(s.Snapshot()), s.Snapshot(), b, lw, up, o, nb)
  {
    ghost var st := s.Snapshot();
    assert st.arr[b] == b.arr;
    var v;
    v, nb := s.Alloc();
    o := new Object.Virtual(lw, Range(Binary(up, Subtraction, lw), v.loc));
    AppendObject(b, o, s);
    RangeAllocKeepsTidy(st, s.Snapshot(), b, lw, up, o, nb);
  }

  /** object_arr_append on an empty array. */
  method AppendObject(b: Block, o: Object, s: State)
    requires s.Valid() && b in s.blocks && o !in s.objects && b.arr == []
    modifies s, b
    ensures s.Valid() && s.heap == old(s.heap) && s.Repr == old(s.Repr) + {o} && b in s.blocks
    ensures s.Snapshot() == WithObject(old(s.Snapshot()), b, 0, o, o.Locs())
  {
    s.InsertObject(b, 0, o);
  }

  // ---- which objects can be deallocated ----

  /** The object is a range or holds nothing or a definite pointer. */
  predicate Pointing(o: Object)
    reads o
  {
    o.range.Some? || o.value.None? || o.value.value.Ptr?
  }

  /** The objects of an array of this state that object_isdeallocand accepts, with variable-free offsets. */
  ghost predicate Checkable(s: State, arr: seq<Object>)
    reads s, arr
  {
    && ConcreteArr(arr)
    && forall i :: 0 <= i < |arr| ==>
         arr[i] in s.objects && Pointing(arr[i]) && forall l :: l in arr[i].Locs() ==> s.InFrame(l)
  }

  /** Deallocating the object frees a live heap block. */
  ghost predicate Frees(st: Store, o: Object) {
    && o in st.locs && |st.locs[o]| == 1
    && st.locs[o][0].Dynamic? && Live(st, st.locs[o][0].block)
  }

  /** The heap block that deallocating the object frees. */
  ghost function Target(st: Store, o: Object): nat
    requires Frees(st, o)
  {
    st.locs[o][0].block
  }

  /** object_isdeallocand; the source aborts on a value that is not a pointer and on a popped frame. */
  predicate IsDeallocand(o: Object, s: State)
    requires s.Valid() && o in s.objects && Pointing(o) && forall l :: l in o.Locs() ==> s.InFrame(l)
    reads s, s.Repr
    ensures IsDeallocand(o, s) <==> Frees(s.Snapshot(), o)
  {
    assert s.Snapshot().locs[o] == o.Locs();
    match o.range
    case Some(r) => (assert r.loc in o.Locs(); s.IsDeallocand(r.loc))
    case None => o.value.Some? && (assert o.value.value.loc in o.Locs(); s.IsDeallocand(o.value.value.loc))
  }

  /** The first object is a deallocand that spans exactly [lw, up). */
  ghost predicate FirstSpans(st: Store, arr: seq<Object>, lw: int, up: int)
    requires ConcreteArr(arr)
  {
    |arr| > 0 && Frees(st, arr[0]) && lw == Lo(arr[0]) && up == Hi(arr[0])
  }

  /** The objects from i to before j are deallocands without a gap between them and before the j-th. */
  ghost predicate Contiguous(st: Store, arr: seq<Object>, i: int, j: int)
    requires ConcreteArr(arr)
  {
    forall k :: i <= k < j ==> Adjoining(st, arr, k)
  }

  /** The k-th object is a deallocand and the next one starts where it ends. */
  ghost predicate Adjoining(st: Store, arr: seq<Object>, k: int)
    requires ConcreteArr(arr)
  {
    0 <= k < |arr| - 1 && Frees(st, arr[k]) && Joined(arr, k)
  }

  lemma IndexExists(arr: seq<Object>, x: int) returns (i: int)
    requires ConcreteArr(arr)
    ensures IsIndex(arr, x, i)
  {
    i := 0;
    while i < |arr| && !In(x, arr[i])
      invariant 0 <= i <= |arr| && forall j :: 0 <= j < i ==> !In(x, arr[j])
    {
      i := i + 1;
    }
    i := if i < |arr| then i else -1;
  }

  lemma IndexUpperInclExists(arr: seq<Object>, x: int) returns (i: int)
    requires ConcreteArr(arr)
    ensures IsIndexUpperIncl(arr, x, i)
  {
    i := 0;
    while i < |arr| && !(Lo(arr[i]) <= x <= Hi(arr[i]))
      invariant 0 <= i <= |arr| && forall j :: 0 <= j < i ==> !(Lo(arr[j]) <= x <= Hi(arr[j]))
    {
      i := i + 1;
    }
    i := if i < |arr| then i else -1;
  }

  datatype Verdict = Yes | No | Aborts

  /** The answer of block_range_aredeallocands, where li and ui are the indices of the two bounds. */
  ghost predicate Judged(st: Store, arr: seq<Object>, lw: int, up: int, li: int, ui: int, r: Verdict)
    requires ConcreteArr(arr)
  {
    && IsIndex(arr, lw, li) && IsIndexUpperIncl(arr, up, ui)
    && if FirstSpans(st, arr, lw, up) then r == Yes
       else if li == -1 || ui == -1 || !Contiguous(st, arr, li, ui) then r == No
       else r == if Frees(st, arr[ui]) then Yes else Aborts
  }

  /** hack_first_object_is_exactly_bounds */
  predicate FirstIsExactly(arr: seq<Object>, lw: Expr, up: Expr, s: State)
    requires s.Valid() && Checkable(s, arr) && Closed(lw) && Closed(up)
    reads s, s.Repr, arr
    ensures FirstIsExactly(arr, lw, up, s) <==> FirstSpans(s.Snapshot(), arr, Val(lw), Val(up))
  {
    |arr| != 0 && IsDeallocand(arr[0], s) && Compare(lw, Eq, arr[0].offset) && Compare(up, Eq, Upper(arr[0]))
  }

  method ContiguousDeallocands(arr: seq<Object>, lwIndex: nat, upIndex: nat, s: State) returns (ok: bool)
    requires s.Valid() && Checkable(s, arr) && upIndex < |arr|
    ensures ok <==> Contiguous(s.Snapshot(), arr, lwIndex, upIndex)
  {
    ghost var st := s.Snapshot();
    var i := lwIndex;
    while i < upIndex
      invariant i == lwIndex || lwIndex <= i <= upIndex
      invariant Contiguous(st, arr, lwIndex, i)
    {
      if !IsDeallocand(arr[i], s) {
        assert !Adjoining(st, arr, i);
        return false;
      }
      if !ContigPrecedes(arr[i], arr[i + 1]) {
        assert !Adjoining(st, arr, i);
        return false;
      }
      i := i + 1;
    }
    return true;
  }

  ghost predicate Answers(st: Store, arr: seq<Object>, lw: int, up: int, r: Verdict)
    requires ConcreteArr(arr)
  {
    exists li, ui :: Judged(st, arr, lw, up, li, ui, r)
  }

  lemma AnswersFirst(st: Store, arr: seq<Object>, lw: int, up: int)
    requires ConcreteArr(arr) && FirstSpans(st, arr, lw, up)
    ensures Answers(st, arr, lw, up, Yes)
  {
    var li := IndexExists(arr, lw);
    var ui := IndexUpperInclExists(arr, up);
    assert Judged(st, arr, lw, up, li, ui, Yes);
  }

  lemma AnswersNo(st: Store, arr: seq<Object>, lw: int, up: int, li: int)
    requires ConcreteArr(arr) && !FirstSpans(st, arr, lw, up) && IsIndex(arr, lw, li)
    requires li == -1 || IsIndexUpperIncl(arr, up, -1)
    ensures Answers(st, arr, lw, up, No)
  {
    var ui := IndexUpperInclExists(arr, up);
    assert Judged(st, arr, lw, up, li, ui, No);
  }

  lemma AnswersRun(st: Store, arr: seq<Object>, lw: int, up: int, li: nat, ui: nat, ok: bool, last: bool)
    requires ConcreteArr(arr) && !FirstSpans(st, arr, lw, up)
    requires IsIndex(arr, lw, li) && IsIndexUpperIncl(arr, up, ui)
    requires (ok <==> Contiguous(st, arr, li, ui)) && (last <==> Frees(st, arr[ui]))
    ensures Answers(st, arr, lw, up, if !ok then No else if last then Yes else Aborts)
  {
    assert Judged(st, arr, lw, up, li, ui, if !ok then No else if last then Yes else Aborts);
  }

  /** block_range_aredeallocands; Aborts is its failing assertion on the last object. */
  method AreDeallocands(b: Block, lw: Expr, up: Expr, s: State) returns (r: Verdict)
    requires s.Valid() && b in s.blocks && Checkable(s, b.arr) && Closed(lw) && Closed(up)
    ensures Answers(s.Snapshot(), b.arr, Val(lw), Val(up), r)
  {
    hide State.Valid, FirstSpans, Contiguous, Frees, Covered, Answers;
    ghost var st := s.Snapshot();
    if FirstIsExactly(b.arr, lw, up, s) {
      AnswersFirst(st, b.arr, Val(lw), Val(up));
      return Yes;
    }
    var lwIndex := ArrIndex(b.arr, lw);
    if lwIndex == -1 {
      AnswersNo(st, b.arr, Val(lw), Val(up), -1);
      return No;
    }
    var upIndex := ArrIndexUpperIncl(b.arr, up);
    if upIndex == -1 {
      AnswersNo(st, b.arr, Val(lw), Val(up), lwIndex);
      return No;
    }
    var ok := ContiguousDeallocands(b.arr, lwIndex, upIndex, s);
    var last := IsDeallocand(b.arr[upIndex], s);
    AnswersRun(st, b.arr, Val(lw), Val(up), lwIndex, upIndex, ok, last);
    r := if !ok then No else if last then Yes else Aborts;
  }

  // ---- what the answer means ----

  ghost predicate CoveredByDeallocand(st: Store, arr: seq<Object>, x: int)
    requires ConcreteArr(arr)
  {
    exists k :: 0 <= k < |arr| && In(x, arr[k]) && Frees(st, arr[k])
  }

  /** The objects from li to ui are deallocands without gaps, the first holding lw, the last reaching up. */
  ghost predicate Span(st: Store, arr: seq<Object>, lw: int, up: int, li: int, ui: int)
    requires ConcreteArr(arr)
  {
    && 0 <= li <= ui < |arr|
    && (forall k :: li <= k <= ui ==> Frees(st, arr[k]))
    && (forall k :: li <= k < ui ==> Joined(arr, k))
    && In(lw, arr[li]) && Lo(arr[ui]) < up <= Hi(arr[ui])
  }

  /** Walking joined objects from one that starts at or below x to one that ends above x, some object holds x. */
  lemma {:induction false} JoinedCrosses(arr: seq<Object>, i: nat, j: nat, x: int) returns (k: nat)
    requires ConcreteArr(arr) && i <= j < |arr| && Lo(arr[i]) <= x < Hi(arr[j])
    requires forall m :: i <= m < j ==> Joined(arr, m)
    ensures i <= k <= j && In(x, arr[k])
    decreases j - i
  {
    if x < Hi(arr[i]) {
      k := i;
    } else {
      assert Joined(arr, i);
      k := JoinedCrosses(arr, i + 1, j, x);
    }
  }

  /** A yes means that the objects between the two bounds form a span, when the lower bound was not found after the
      upper one. */
  lemma YesIsSpan(st: Store, arr: seq<Object>, lw: int, up: int, li: int, ui: int)
    requires ConcreteArr(arr) && lw < up && li <= ui && Judged(st, arr, lw, up, li, ui, Yes)
    ensures Span(st, arr, lw, up, li, ui)
  {
    if FirstSpans(st, arr, lw, up) {
      assert In(lw, arr[0]);
      assert li == 0 && ui == 0;
    } else {
      ContiguousIsSpan(st, arr, lw, up, li, ui);
    }
  }

  lemma ContiguousIsSpan(st: Store, arr: seq<Object>, lw: int, up: int, li: nat, ui: nat)
    requires ConcreteArr(arr) && li <= ui < |arr| && Contiguous(st, arr, li, ui) && Frees(st, arr[ui])
    requires lw < up && In(lw, arr[li]) && IsIndexUpperIncl(arr, up, ui)
    ensures Span(st, arr, lw, up, li, ui)
  {
    forall k | li <= k < ui
      ensures Frees(st, arr[k]) && Joined(arr, k)
    {
      assert Adjoining(st, arr, k);
    }
    if Lo(arr[ui]) == up {
      UpperIsAbove(arr, lw, up, li, ui);
    }
  }

  /** The upper bound is not where its object starts: an object before it would hold it. */
  lemma UpperIsAbove(arr: seq<Object>, lw: int, up: int, li: nat, ui: nat)
    requires ConcreteArr(arr) && li <= ui < |arr| && (forall k :: li <= k < ui ==> Joined(arr, k))
    requires lw < up && In(lw, arr[li]) && IsIndexUpperIncl(arr, up, ui)
    ensures Lo(arr[ui]) < up
  {
    if Lo(arr[ui]) == up {
      assert Joined(arr, ui - 1);
      var k := JoinedCrosses(arr, li, ui - 1, up - 1);
    }
  }

  /** A yes on [lw, up) means that every offset in it lies in an object that owns or points at a live heap block,
      when the lower bound was not found after the upper one. */
  lemma YesCoversEveryOffset(st: Store, arr: seq<Object>, lw: int, up: int, li: int, ui: int, x: int)
    requires ConcreteArr(arr) && li <= ui && Judged(st, arr, lw, up, li, ui, Yes) && lw <= x < up
    ensures CoveredByDeallocand(st, arr, x)
  {
    YesIsSpan(st, arr, lw, up, li, ui);
    SpanCovers(st, arr, lw, up, li, ui, x);
  }

  lemma SpanCovers(st: Store, arr: seq<Object>, lw: int, up: int, li: int, ui: int, x: int)
    requires ConcreteArr(arr) && Span(st, arr, lw, up, li, ui) && lw <= x < up
    ensures CoveredByDeallocand(st, arr, x)
  {
    var k := JoinedCrosses(arr, li, ui, x);
    assert In(x, arr[k]) && Frees(st, arr[k]);
  }

  /** On a gap-free tiling the answer is yes exactly when every offset of [lw, up) is deallocatable. */
  lemma YesIsExactOnTiling(st: Store, arr: seq<Object>, lo: int, hi: int, lw: int, up: int, li: int, ui: int,
                           r: Verdict)
    requires ConcreteArr(arr) && Tiling(arr, lo, hi) && lo <= lw < up <= hi && Judged(st, arr, lw, up, li, ui, r)
    ensures r == Yes <==> forall x :: lw <= x < up ==> CoveredByDeallocand(st, arr, x)
  {
    if li != -1 && ui != -1 {
      TilingIndices(arr, lo, hi, lw, up, li, ui);
    }
    if r == Yes {
      forall x | lw <= x < up
        ensures CoveredByDeallocand(st, arr, x)
      {
        YesCoversEveryOffset(st, arr, lw, up, li, ui, x);
      }
    }
    if forall x :: lw <= x < up ==> CoveredByDeallocand(st, arr, x) {
      TilingIndices(arr, lo, hi, lw, up, li, ui);
      forall k | li <= k <= ui
        ensures Frees(st, arr[k])
      {
        TileFrees(st, arr, lo, hi, lw, up, li, ui, k);
      }
      forall k | li <= k < ui
        ensures Adjoining(st, arr, k)
      {
        assert Joined(arr, k);
      }
    }
  }

  lemma TileFrees(st: Store, arr: seq<Object>, lo: int, hi: int, lw: int, up: int, li: nat, ui: nat, k: nat)
    requires ConcreteArr(arr) && Tiling(arr, lo, hi) && lw < up && li <= k <= ui < |arr|
    requires In(lw, arr[li]) && Lo(arr[ui]) < up
    requires forall x :: lw <= x < up ==> CoveredByDeallocand(st, arr, x)
    ensures Frees(st, arr[k])
  {
    var x := OffsetOfTile(arr, lo, hi, lw, up, li, ui, k);
    TilingDisjoint(arr, lo, hi);
    hide Tiling, Frees, Lo, Hi;
    assert CoveredByDeallocand(st, arr, x);
    var j :| 0 <= j < |arr| && In(x, arr[j]) && Frees(st, arr[j]);
  }

  lemma OffsetOfTile(arr: seq<Object>, lo: int, hi: int, lw: int, up: int, li: nat, ui: nat, k: nat) returns (x: int)
    requires ConcreteArr(arr) && Tiling(arr, lo, hi) && lw < up && li <= k <= ui < |arr|
    requires In(lw, arr[li]) && Lo(arr[ui]) < up
    ensures lw <= x < up && In(x, arr[k])
  {
    hide Lo, Hi, Joined;
    x := if k == li then lw else Lo(arr[k]);
    if k > li {
      TilingOrder(arr, lo, hi, li, k);
    }
    if k < ui {
      TilingOrder(arr, lo, hi, k, ui);
    }
  }

  lemma TilingIndices(arr: seq<Object>, lo: int, hi: int, lw: int, up: int, li: int, ui: int)
    requires ConcreteArr(arr) && Tiling(arr, lo, hi) && lo <= lw < up <= hi
    requires IsIndex(arr, lw, li) && IsIndexUpperIncl(arr, up, ui)
    ensures 0 <= li <= ui && In(lw, arr[li]) && Lo(arr[ui]) < up <= Hi(arr[ui])
  {
    TilingCovers(arr, lo, hi, lw);
    TilingCovers(arr, lo, hi, up - 1);
    var k :| 0 <= k < |arr| && In(up - 1, arr[k]);
    if ui > 0 {
      assert Joined(arr, ui - 1);
    }
    if ui < li {
      TilingOrder(arr, lo, hi, ui, li);
    }
  }

  // ---- deallocating a run of objects ----

  /** The objects li..ui of b, all of them deallocands; none when the bounds were found the other way round. */
  ghost predicate IsRun(st: Store, b: Block, li: nat, ui: nat) {
    && b in st.arr && li < |st.arr[b]| && ui < |st.arr[b]|
    && forall k :: li <= k <= ui ==> Frees(st, st.arr[b][k])
  }

  /** Where the run ends. */
  function End(li: nat, ui: nat): (j: nat)
    ensures li <= j
  {
    if li <= ui then ui + 1 else li
  }

  ghost function FreeAll(freed: seq<bool>, addrs: seq<nat>): (r: seq<bool>)
    ensures |r| == |freed| && forall a :: 0 <= a < |freed| ==> (r[a] <==> freed[a] || a in addrs)
  {
    seq(|freed|, a requires 0 <= a < |freed| => freed[a] || a in addrs)
  }

  /** The store after deallocating objects that name these blocks. */
  ghost function AfterFreeing(st: Store, addrs: seq<nat>): Store {
    st.(freed := FreeAll(st.freed, addrs))
  }

  lemma FreeOneMore(st: Store, addrs: seq<nat>, a: nat)
    requires a < |st.freed|
    ensures WithFreed(AfterFreeing(st, addrs), a) == AfterFreeing(st, addrs + [a])
  {
  }

  lemma FreeNone(st: Store)
    ensures AfterFreeing(st, []) == st
  {
  }

  /** What deallocating the object fails with: there is nothing in it, it does not point into the heap, no such block
      exists, or the block is freed. */
  ghost function Mishap(st: Store, o: Object): Option<DeallocError>
    requires o in st.locs
  {
    if st.locs[o] == [] then Some(AssertionFails)
    else if !st.locs[o][0].Dynamic? then Some(NotOnHeap)
    else if st.locs[o][0].block >= |st.freed| then Some(AssertionFails)
    else if st.freed[st.locs[o][0].block] then Some(DoubleFree)
    else None
  }

  /** object_dealloc of a range, a definite pointer or an uninitialised value. */
  method DeallocObject(o: Object, s: State) returns (err: Option<DeallocError>)
    requires s.Valid() && o in s.objects && Pointing(o)
    modifies s.heap
    ensures s.Valid() && err == Mishap(old(s.Snapshot()), o)
    ensures err == None <==> Frees(old(s.Snapshot()), o)
    ensures s.Snapshot() == if err == None then WithFreed(old(s.Snapshot()), Target(old(s.Snapshot()), o))
                            else old(s.Snapshot())
  {
    assert s.Snapshot().locs[o] == o.Locs();
    if o.range.None? && o.value.None? {
      return Some(AssertionFails);
    }
    var loc := if o.range.Some? then o.range.value.loc else o.value.value.loc;
    if loc.Dynamic? && loc.block >= |s.heap.blocks| {
      return Some(AssertionFails);
    }
    var e := s.Dealloc(Ptr(loc));
    err := if e == None then None else if e.value.NotHeapLocation? then Some(NotOnHeap) else Some(DoubleFree);
  }

  /** The blocks named by the objects from i to before j. */
  ghost function Addresses(st: Store, arr: seq<Object>, i: nat, j: nat): (r: seq<nat>)
    requires i <= j <= |arr| && forall k :: i <= k < j ==> Frees(st, arr[k])
    ensures |r| == j - i && forall k :: i <= k < j ==> r[k - i] == Target(st, arr[k])
  {
    seq<nat>(j - i, k requires 0 <= k < j - i => Target(st, arr[i + k]))
  }

  /** Every object from li to ui can be deallocated, one after the other. */
  ghost predicate AllFree(st: Store, arr: seq<Object>, li: nat, ui: nat)
    requires li < |arr| && ui < |arr|
  {
    (forall k :: li <= k <= ui ==> Frees(st, arr[k])) && Distinct(Addresses(st, arr, li, End(li, ui)))
  }

  /** The objects before the i-th can be deallocated, and then deallocating the i-th fails. */
  ghost predicate StoppedAt(st: Store, arr: seq<Object>, li: nat, ui: nat, i: nat, err: Option<DeallocError>) {
    && li <= i <= ui < |arr| && (forall k :: li <= k < i ==> Frees(st, arr[k])) && Distinct(Addresses(st, arr, li, i))
    && arr[i] in st.locs && err.Some? && err == Mishap(AfterFreeing(st, Addresses(st, arr, li, i)), arr[i])
  }

  /** The loop over the objects of the run: it succeeds exactly when each names a live heap block and no two the
      same, and otherwise stops at the first that does not. */
  method DeallocObjects(arr: seq<Object>, lwIndex: nat, upIndex: nat, s: State, ghost st: Store)
    returns (err: Option<DeallocError>)
    requires s.Valid() && st == s.Snapshot() && lwIndex < |arr| && upIndex < |arr|
    requires forall i :: lwIndex <= i <= upIndex ==> arr[i] in s.objects && Pointing(arr[i])
    modifies s.heap
    ensures s.Valid() && (err == None <==> AllFree(st, arr, lwIndex, upIndex))
    ensures err == None ==> s.Snapshot() == AfterFreeing(st, Addresses(st, arr, lwIndex, End(lwIndex, upIndex)))
    ensures err.Some? ==> exists i :: StoppedAt(st, arr, lwIndex, upIndex, i, err) &&
                                      s.Snapshot() == AfterFreeing(st, Addresses(st, arr, lwIndex, i))
  {
    FreeNone(st);
    var i := lwIndex;
    while i <= upIndex
      invariant lwIndex <= i <= End(lwIndex, upIndex) && s.Valid()
      invariant (forall k :: lwIndex <= k < i ==> Frees(st, arr[k])) && Distinct(Addresses(st, arr, lwIndex, i))
      invariant s.Snapshot() == AfterFreeing(st, Addresses(st, arr, lwIndex, i))
    {
      ghost var done := Addresses(st, arr, lwIndex, i);
      var e := DeallocObject(arr[i], s);
      if e.Some? {
        assert StoppedAt(st, arr, lwIndex, upIndex, i, e);
        StoppedIsNotFree(st, arr, lwIndex, upIndex, i, e);
        return e;
      }
      FreesBefore(st, done, arr[i]);
      AddressesOneMore(st, arr, lwIndex, i);
      FreeOneMore(st, done, Target(st, arr[i]));
      i := i + 1;
    }
    return None;
  }

  /** What can be deallocated after others could be before, and names none of their blocks. */
  lemma FreesBefore(st: Store, addrs: seq<nat>, o: Object)
    requires Frees(AfterFreeing(st, addrs), o)
    ensures Frees(st, o) && Target(st, o) == Target(AfterFreeing(st, addrs), o) && Target(st, o) !in addrs
  {
  }

  lemma StoppedIsNotFree(st: Store, arr: seq<Object>, li: nat, ui: nat, i: nat, err: Option<DeallocError>)
    requires li < |arr| && StoppedAt(st, arr, li, ui, i, err)
    ensures !AllFree(st, arr, li, ui)
    ensures Frees(st, arr[i]) ==> err == Some(DoubleFree)
  {
    if Frees(st, arr[i]) {
      assert Target(st, arr[i]) in Addresses(st, arr, li, i);
      if forall k :: li <= k <= ui ==> Frees(st, arr[k]) {
        AddressesOneMore(st, arr, li, i);
        NotDistinct(Addresses(st, arr, li, ui + 1), Addresses(st, arr, li, i), Target(st, arr[i]));
      }
    }
  }

  lemma AddressesOneMore(st: Store, arr: seq<Object>, i: nat, j: nat)
    requires i <= j < |arr| && forall k :: i <= k <= j ==> Frees(st, arr[k])
    ensures Addresses(st, arr, i, j + 1) == Addresses(st, arr, i, j) + [Target(st, arr[j])]
  {
  }

  lemma NotDistinct(s: seq<nat>, init: seq<nat>, x: nat)
    requires x in init && init + [x] <= s
    ensures !Distinct(s)
  {
    var i :| 0 <= i < |init| && init[i] == x;
    assert s[i] == (init + [x])[i] == x && s[|init|] == (init + [x])[|init|] == x;
  }

  datatype DeallocError = LowerNotAllocated | UpperNotAllocated | AssertionFails | NotOnHeap | DoubleFree

  function Kept<T>(s: seq<T>, li: nat, ui: nat): seq<T>
    requires li < |s| && ui < |s|
  {
    s[..li] + s[ui + 1..]
  }

  /** The array of b without the objects li..ui, which leave the store. */
  ghost function WithoutRun(st: Store, b: Block, arr: seq<Object>, li: nat, ui: nat): Store
    requires li < |arr| && ui < |arr|
  {
    st.(arr := st.arr[b := Kept(arr, li, ui)], locs := st.locs - Elements(arr[li..End(li, ui)]))
  }

  /** The run li..ui is gone, each block it named is freed, the others stay in order; nbs are the blocks that
      were allocated for the parts of the run outside the bounds, which no object refers to any more. */
  ghost predicate Deallocated(st: Store, st': Store, b: Block, li: nat, ui: nat, older nbs: seq<Block>)
    requires IsRun(st, b, li, ui)
  {
    var arr, st1 := st.arr[b], WithNewBlocks(st, nbs);
    && Distinct(nbs) && (forall i :: 0 <= i < |nbs| ==> nbs[i] !in st.arr && nbs[i] in st'.arr)
    && Distinct(Addresses(st, arr, li, End(li, ui)))
    && st' == WithoutRun(AfterFreeing(st1, Addresses(st, arr, li, End(li, ui))), b, arr, li, ui)
  }

  /** Deallocating the objects stopped with an error: the leftovers stay at the end of the array, and the blocks named
      before are freed. */
  ghost predicate Interrupted(st: Store, st': Store, b: Block, li: nat, ui: nat, older nbs: seq<Block>,
                              err: Option<DeallocError>)
    requires b in st.arr
  {
    var arr, st1 := st.arr[b], WithNewBlocks(st, nbs);
    && Distinct(nbs) && (forall i :: 0 <= i < |nbs| ==> nbs[i] !in st.arr && nbs[i] in st'.arr)
    && b in st'.arr && |arr| <= |st'.arr[b]|
    && Appended(st1, st'.(freed := st1.freed), b, st'.arr[b][|arr|..])
    && exists i :: StoppedAt(st, arr, li, ui, i, err) && st'.freed == FreeAll(st1.freed, Addresses(st, arr, li, i))
  }

  lemma NewBlocksFrames(st: Store, nbs: seq<Block>)
    requires Owning(st) && Distinct(nbs) && forall i :: 0 <= i < |nbs| ==> nbs[i] !in st.arr
    ensures var st1 := WithNewBlocks(st, nbs);
            && SameObjects(st, st1)
            && (forall o :: Frees(st, o) ==> Frees(st1, o))
            && |st1.freed| == |st1.heap| && Owning(st1) && SameMemories(st, st1)
            && LiveCount(st1.freed) == LiveCount(st.freed) + |nbs|
            && forall a :: 0 <= a < |st.freed| ==> a < |st1.freed| && st1.freed[a] == st.freed[a]
  {
    NewBlocksKeep(st, nbs);
  }

  /** Removing the run keeps the invariant: what remains owns blocks that no removed object named. When the bounds
      were found the other way round and not next to each other, the objects between them are there twice. */
  lemma RunRemovalKeepsExactlyWhen(st: Store, b: Block, li: nat, ui: nat)
    requires Owning(st) && IsRun(st, b, li, ui)
    ensures Owning(WithoutRun(AfterFreeing(st, Addresses(st, st.arr[b], li, End(li, ui))), b, st.arr[b], li, ui)) <==>
            li <= ui + 1
  {
    var arr := st.arr[b];
    var st' := WithoutRun(AfterFreeing(st, Addresses(st, arr, li, End(li, ui))), b, arr, li, ui);
    if li > ui + 1 {
      assert st'.arr[b][ui + 1] == arr[ui + 1] == st'.arr[b][li];
      assert !Distinct(st'.arr[b]);
    } else if li == ui + 1 {
      assert st'.arr[b] == arr;
    } else {
      RunRemovalKeeps(st, b, li, ui);
    }
  }

  lemma RunRemovalKeeps(st: Store, b: Block, li: nat, ui: nat)
    requires Owning(st) && IsRun(st, b, li, ui) && li <= ui
    ensures Owning(WithoutRun(AfterFreeing(st, Addresses(st, st.arr[b], li, End(li, ui))), b, st.arr[b], li, ui))
  {
    var arr, addrs := st.arr[b], Addresses(st, st.arr[b], li, End(li, ui));
    var st' := WithoutRun(AfterFreeing(st, addrs), b, arr, li, ui);
    forall o | o in st'.locs && o.range.Some?
      ensures Owns(st', o)
    {
      RemainingOwns(st, addrs, o, Elements(arr[li..ui + 1]));
    }
    KeptIsDistinct(arr, li, ui);
    hide Owns, Live, Frees, FreeAll;
    forall c, o | c in st'.arr && o in st'.arr[c]
      ensures o in st.arr[c] && (c == b ==> o !in arr[li..ui + 1])
    {
    }
  }

  lemma KeptIsDistinct(arr: seq<Object>, li: nat, ui: nat)
    requires Distinct(arr) && li <= ui < |arr|
    ensures Distinct(Kept(arr, li, ui))
    ensures forall o :: o in Kept(arr, li, ui) <==> o in arr && o !in arr[li..ui + 1]
  {
    var kept := Kept(arr, li, ui);
    assert forall k :: 0 <= k < |kept| ==> kept[k] == arr[if k < li then k else k + (ui - li + 1)];
    forall o | o in arr && o !in arr[li..ui + 1]
      ensures o in kept
    {
      var k :| 0 <= k < |arr| && arr[k] == o;
      assert kept[if k < li then k else k - (ui - li + 1)] == o;
    }
  }

  /** A range that stays owns a block that none of the others names. */
  lemma RemainingOwns(st: Store, addrs: seq<nat>, o: Object, gone: set<Object>)
    requires Owning(st) && o in st.locs && o.range.Some? && o !in gone
    requires forall a :: a in addrs ==> exists g :: g in gone && Frees(st, g) && Target(st, g) == a
    ensures Owns(AfterFreeing(st, addrs).(locs := st.locs - gone), o)
  {
    assert Owns(st, o);
  }

  /** The two copying loops: the objects before and after the run, in order. */
  method CopyKept(obj: seq<Object>, lwIndex: nat, upIndex: nat) returns (kept: seq<Object>)
    requires lwIndex < |obj| && upIndex < |obj|
    ensures kept == Kept(obj, lwIndex, upIndex)
  {
    kept := [];
    for i := 0 to lwIndex
      invariant kept == obj[..i]
    {
      kept := kept + [obj[i]];
    }
    for i := upIndex + 1 to |obj|
      invariant kept == obj[..lwIndex] + obj[upIndex + 1..i]
    {
      kept := kept + [obj[i]];
    }
  }

  /** st' is st with the pieces at the end of the array of b. */
  ghost predicate Appended(st: Store, st': Store, b: Block, pieces: seq<Object>) {
    && b in st.arr && Distinct(pieces) && (forall i :: 0 <= i < |pieces| ==> pieces[i] !in st.locs)
    && st'.heap == st.heap && st'.freed == st.freed && st'.frames == st.frames && st'.clump == st.clump
    && st'.statics == st.statics && st'.arr == st.arr[b := st.arr[b] + pieces]
    && st'.locs.Keys == st.locs.Keys + Elements(pieces) && (forall o :: o in st.locs ==> st'.locs[o] == st.locs[o])
  }

  method AppendPiece(b: Block, piece: Option<Object>, s: State, ghost st: Store, ghost done: seq<Object>)
    requires s.Valid() && b in s.blocks && Appended(st, s.Snapshot(), b, done)
    requires piece.Some? ==> piece.value !in s.objects
    modifies s, b
    ensures s.Valid() && s.heap == old(s.heap) && s.Repr == old(s.Repr) + Single(piece)
    ensures s.blocks == old(s.blocks) && s.objects == old(s.objects) + Single(piece)
    ensures Appended(st, s.Snapshot(), b, done + Present(piece))
  {
    assert s.Snapshot().arr[b] == b.arr;
    if piece.Some? {
      ghost var arr := b.arr;
      s.InsertObject(b, |b.arr|, piece.value);
      assert arr[..|arr|] + [piece.value] + arr[|arr|..] == arr + [piece.value] == st.arr[b] + (done + [piece.value]);
      assert Elements(done + [piece.value]) == Elements(done) + {piece.value};
    } else {
      assert done + [] == done;
    }
  }

  ghost predicate CanDrop(st: Store, b: Block, arr: seq<Object>, dropped: set<Object>) {
    && b in st.arr
    && (forall o :: o in arr ==> o in st.arr[b] && o !in dropped)
    && (forall c, o :: c in st.arr && c != b && o in st.arr[c] ==> o !in dropped)
  }

  /** Replace the array of b; the dropped objects leave the state. */
  method SetArray(b: Block, arr: seq<Object>, s: State, ghost st: Store, ghost dropped: set<Object>)
    requires s.Valid() && b in s.blocks && st == s.Snapshot() && CanDrop(st, b, arr, dropped)
    modifies s, b
    ensures s.Valid() && s.heap == old(s.heap) && s.Repr == old(s.Repr) && s.blocks == old(s.blocks)
    ensures s.Snapshot() == st.(arr := st.arr[b := arr], locs := st.locs - dropped)
  {
    assert st.arr[b] == b.arr;
    b.arr := arr;
    s.objects := s.objects - dropped;
    forall c, o | c in s.blocks && o in c.arr
      ensures o in s.objects
    {
      assert o in st.arr[c];
    }
  }

  /** How many parts of the objects at the bounds lie outside them and need a heap block. */
  ghost function Leftovers(arr: seq<Object>, lw: int, up: int, li: nat, ui: nat): nat
    requires ConcreteArr(arr) && li < |arr| && ui < |arr|
  {
    (if lw == Lo(arr[li]) then 0 else 1) + (if up == Hi(arr[ui]) || up == Lo(arr[ui]) then 0 else 1)
  }

  /** The object starts at the upper bound and is a range, on which object_from's assertion fails, or a value that has
      nothing to copy. */
  ghost predicate Unsplittable(st: Store, o: Object, up: int)
    requires Concrete(o)
  {
    Lo(o) == up < Hi(o) && (o.range.Some? || (o in st.locs && st.locs[o] == []))
  }

  predicate CannotSplit(o: Object, up: Expr)
    requires Concrete(o) && Closed(up)
    reads o
    ensures CannotSplit(o, up) <==> Lo(o) == Val(up) < Hi(o) && (o.range.Some? || o.value.None?)
  {
    (o.range.Some? || o.value.None?) && Compare(up, Eq, o.offset) && !Compare(up, Ge, Upper(o))
  }

  lemma CannotSplitIs(s: State, o: Object, up: Expr)
    requires s.Valid() && o in s.objects && Pointing(o) && Concrete(o) && Closed(up)
    ensures CannotSplit(o, up) <==> Unsplittable(s.Snapshot(), o, Val(up))
  {
    assert s.Snapshot().locs[o] == o.Locs();
  }

  /** The bounds lie in the objects found for them. */
  ghost predicate Bounded(arr: seq<Object>, lw: int, up: int, li: nat, ui: nat)
    requires ConcreteArr(arr) && li < |arr| && ui < |arr|
  {
    In(lw, arr[li]) && Lo(arr[ui]) <= up <= Hi(arr[ui])
  }

  /** The object is a range whose heap block is this one. */
  ghost predicate RangeAt(st: Store, o: Object, addr: nat) {
    o.range.Some? && o.range.value.loc == Dynamic(addr, Constant(0)) && o in st.locs && st.locs[o] == BlockRef(addr)
  }

  /** The parts of the objects at the bounds that lie outside them, each with a new heap block in turn; a value that
      starts at the upper bound is copied. */
  ghost predicate AreLeftovers(st: Store, st': Store, arr: seq<Object>, lw: int, up: int, li: nat, ui: nat,
                               pieces: seq<Object>)
    requires ConcreteArr(arr) && li < |arr| && ui < |arr|
  {
    var n := if Lo(arr[li]) < lw then 1 else 0;
    && ConcreteArr(pieces) && |pieces| == n + (if up < Hi(arr[ui]) then 1 else 0)
    && (n == 1 ==> Lo(pieces[0]) == Lo(arr[li]) && Hi(pieces[0]) == lw && RangeAt(st', pieces[0], |st.heap|))
    && (up < Hi(arr[ui]) ==> UpperLeftover(st, st', arr[ui], up, pieces[n], |st.heap| + n))
  }

  /** They are at the end of the array of b. */
  ghost predicate LeftoversStay(st: Store, st': Store, b: Block, lw: int, up: int, li: nat, ui: nat)
    requires b in st.arr && ConcreteArr(st.arr[b]) && li < |st.arr[b]| && ui < |st.arr[b]|
  {
    && b in st'.arr && |st.arr[b]| <= |st'.arr[b]|
    && AreLeftovers(st, st', st.arr[b], lw, up, li, ui, st'.arr[b][|st.arr[b]|..])
  }

  ghost predicate UpperLeftover(st: Store, st': Store, last: Object, up: int, piece: Object, addr: nat)
    requires Concrete(last) && Concrete(piece)
  {
    && Lo(piece) == up && Hi(piece) == Hi(last)
    && if up == Lo(last) then
         piece.range == None && piece in st'.locs && st'.locs[piece] == Locs(st, last)
       else RangeAt(st', piece, addr)
  }

  ghost function Locs(st: Store, o: Object): seq<Location> {
    if o in st.locs then st.locs[o] else []
  }

  /** A range refers to its block, and a value to what the copied value did. */
  ghost predicate PieceRefers(st': Store, piece: Option<Object>, copied: seq<Location>) {
    piece.Some? ==>
      && piece.value in st'.locs
      && st'.locs[piece.value] == if piece.value.range.Some? then [piece.value.range.value.loc] else copied
  }

  lemma PieceInState(s: State, piece: Option<Object>, v: Option<Value>)
    requires s.Valid() && (piece.Some? ==> piece.value in s.objects)
    requires piece.Some? && piece.value.range.None? ==> piece.value.value == v
    ensures PieceRefers(s.Snapshot(), piece, Pointers(v))
  {
  }

  /** The two pieces that object_upto and object_from make are these. */
  lemma PiecesAreLeftovers(st: Store, st': Store, arr: seq<Object>, lw: Expr, up: Expr, li: nat, ui: nat,
                           upto: Option<Object>, from: Option<Object>)
    requires ConcreteArr(arr) && li < |arr| && ui < |arr| && Closed(lw) && Closed(up)
    requires Bounded(arr, Val(lw), Val(up), li, ui)
    requires Lo(arr[ui]) == Val(up) < Hi(arr[ui]) ==> arr[ui].range.None?
    requires IsUpto(upto, arr[li], lw, |st.heap|) && IsFrom(from, arr[ui], up, |st.heap| + Cost(upto))
    requires PieceRefers(st', upto, []) && PieceRefers(st', from, Locs(st, arr[ui]))
    ensures AreLeftovers(st, st', arr, Val(lw), Val(up), li, ui, Present(upto) + Present(from))
  {
    UptoBounds(upto, arr[li], lw, |st.heap|);
    FromBounds(from, arr[ui], up, |st.heap| + Cost(upto));
    var pieces := Present(upto) + Present(from);
    if upto.Some? {
      assert pieces[0] == upto.value;
    }
    if from.Some? {
      assert pieces[|Present(upto)|] == from.value;
    }
  }

  /** The parts of those objects below lw and from up on go to the end of the old array. */
  method AppendLeftovers(b: Block, lwIndex: nat, upIndex: nat, lw: Expr, up: Expr, s: State, ghost st: Store)
    returns (ghost nbs: seq<Block>, ghost pieces: seq<Object>)
    requires s.Valid() && b in s.blocks && st == s.Snapshot() && ConcreteArr(b.arr) && Closed(lw) && Closed(up)
    requires lwIndex < |b.arr| && upIndex < |b.arr| && Bounded(b.arr, Val(lw), Val(up), lwIndex, upIndex)
    requires !CannotSplit(b.arr[upIndex], up)
    modifies s, s.heap, b
    ensures s.Valid() && s.heap == old(s.heap) && fresh(s.Repr - old(s.Repr)) && b in s.blocks
    ensures s.objects == old(s.objects) + Elements(pieces)
    ensures Added(old(s.blocks), s.blocks, nbs) && |nbs| == Leftovers(old(b.arr), Val(lw), Val(up), lwIndex, upIndex)
    ensures Appended(WithNewBlocks(st, nbs), s.Snapshot(), b, pieces)
    ensures AreLeftovers(st, s.Snapshot(), old(b.arr), Val(lw), Val(up), lwIndex, upIndex, pieces)
  {
    var upto, from;
    ghost var obj, last := b.arr, b.arr[upIndex];
    hide Appended, Added, Leftovers, AreLeftovers, IsUpto, IsFrom, CannotSplit, Bounded, WithNewBlocks;
    assert last in s.objects && st.locs[last] == last.Locs();
    hide State.Valid, State.Snapshot;
    upto, from, nbs := MakeLeftovers(b.arr, lwIndex, upIndex, lw, up, s);
    AppendBoth(b, upto, from, s);
    pieces := Present(upto) + Present(from);
    PieceInState(s, upto, None);
    PieceInState(s, from, last.value);
    PiecesAreLeftovers(st, s.Snapshot(), obj, lw, up, lwIndex, upIndex, upto, from);
  }

  method MakeLeftovers(obj: seq<Object>, lwIndex: nat, upIndex: nat, lw: Expr, up: Expr, s: State)
    returns (upto: Option<Object>, from: Option<Object>, ghost nbs: seq<Block>)
    requires s.Valid() && ConcreteArr(obj) && Closed(lw) && Closed(up)
    requires lwIndex < |obj| && upIndex < |obj| && Bounded(obj, Val(lw), Val(up), lwIndex, upIndex)
    requires !CannotSplit(obj[upIndex], up)
    modifies s, s.heap
    ensures s.Valid() && s.heap == old(s.heap) && fresh(s.Repr - old(s.Repr))
    ensures IsUpto(upto, obj[lwIndex], lw, |old(s.heap.blocks)|)
    ensures IsFrom(from, obj[upIndex], up, |old(s.heap.blocks)| + Cost(upto))
    ensures from.Some? && from.value.range.None? ==> from.value.value == obj[upIndex].value
    ensures Added(old(s.blocks), s.blocks, nbs) && |nbs| == Leftovers(obj, Val(lw), Val(up), lwIndex, upIndex)
    ensures s.Snapshot() == WithNewBlocks(old(s.Snapshot()), nbs) && s.objects == old(s.objects)
    ensures upto.Some? ==> upto.value !in s.objects
    ensures from.Some? ==> from.value !in s.objects && upto != from
    ensures fresh(Single(upto) + Single(from))
  {
    ghost var n1, n2;
    upto, n1 := ObjectUpto(obj[lwIndex], lw, s);
    ghost var blocks1 := s.blocks;
    assert |s.heap.blocks| == |old(s.heap.blocks)| + Cost(upto);
    hide State.Snapshot, Added;
    from, n2 := ObjectFrom(obj[upIndex], up, s);
    nbs := n1 + n2;
    AddedJoin(old(s.blocks), blocks1, s.blocks, n1, n2);
    NewBlocksJoin(old(s.Snapshot()), n1, n2);
  }

  lemma UnionOfTwo<T>(s: set<T>, a: set<T>, b: set<T>)
    ensures s + a + b == s + (a + b)
  {
  }

  lemma PresentElements(upto: Option<Object>, from: Option<Object>)
    ensures Elements(Present(upto) + Present(from)) == Single(upto) + Single(from)
  {
  }

  lemma AppendedNothing(st: Store, b: Block)
    requires b in st.arr
    ensures Appended(st, st, b, [])
  {
    assert st.arr[b] + [] == st.arr[b];
  }

  method AppendBoth(b: Block, upto: Option<Object>, from: Option<Object>, s: State)
    requires s.Valid() && b in s.blocks
    requires upto.Some? ==> upto.value !in s.objects
    requires from.Some? ==> from.value !in s.objects && upto != from
    modifies s, b
    ensures s.Valid() && s.heap == old(s.heap) && s.Repr == old(s.Repr) + (Single(upto) + Single(from))
    ensures s.blocks == old(s.blocks) && s.objects == old(s.objects) + Elements(Present(upto) + Present(from))
    ensures Appended(old(s.Snapshot()), s.Snapshot(), b, Present(upto) + Present(from))
  {
    ghost var st := s.Snapshot();
    AppendedNothing(st, b);
    UnionOfTwo(s.Repr, Single(upto), Single(from));
    UnionOfTwo(s.objects, Single(upto), Single(from));
    PresentElements(upto, from);
    hide State.Valid, Appended, Single, Elements;
    AppendPiece(b, upto, s, st, []);
    assert [] + Present(upto) == Present(upto);
    AppendPiece(b, from, s, st, Present(upto));
  }

  /** Deallocating the objects from li to ui comes to the same in both stores. */
  ghost predicate SameTargets(st: Store, st2: Store, arr: seq<Object>, li: nat, ui: nat)
    requires li < |arr| && ui < |arr|
  {
    forall k :: li <= k <= ui ==> SameTarget(st, st2, arr[k])
  }

  ghost predicate SameTarget(st: Store, st2: Store, o: Object) {
    && o in st.locs && o in st2.locs && st2.locs[o] == st.locs[o] && (Frees(st, o) <==> Frees(st2, o))
    && forall addrs :: Mishap(AfterFreeing(st2, addrs), o) == Mishap(AfterFreeing(st, addrs), o)
  }

  /** The leftovers do not change what deallocating the objects of the run comes to. */
  lemma LeftoversKeepRun(st: Store, nbs: seq<Block>, st2: Store, b: Block, pieces: seq<Object>, li: nat, ui: nat)
    requires Owning(st) && b in st.arr && li < |st.arr[b]| && ui < |st.arr[b]|
    requires Distinct(nbs) && forall i :: 0 <= i < |nbs| ==> nbs[i] !in st.arr
    requires Appended(WithNewBlocks(st, nbs), st2, b, pieces)
    ensures SameTargets(st, st2, st.arr[b], li, ui)
    ensures SameObjects(st, WithNewBlocks(st, nbs))
  {
    NewBlocksFrames(st, nbs);
    forall k | li <= k <= ui
      ensures SameTarget(st, st2, st.arr[b][k])
    {
      TargetStays(st, st2, st.arr[b][k]);
    }
  }

  lemma TargetStays(st: Store, st2: Store, o: Object)
    requires Owning(st) && o in st.locs && o in st2.locs && st2.locs[o] == st.locs[o]
    requires |st.freed| <= |st2.freed| == |st2.heap| && forall a :: 0 <= a < |st.freed| ==> st2.freed[a] == st.freed[a]
    ensures SameTarget(st, st2, o)
  {
    if st.locs[o] != [] {
      assert st.locs[o][0] in st.locs[o];
    }
  }

  /** What is dropped from b is in no other block and in no kept place. */
  lemma DroppedIsGone(st: Store, st1: Store, st2: Store, b: Block, pieces: seq<Object>, li: nat, ui: nat)
    requires Exclusive(st.arr) && (forall c, o :: c in st.arr && o in st.arr[c] ==> o in st.locs)
    requires b in st.arr && li < |st.arr[b]| && ui < |st.arr[b]|
    requires SameObjects(st, st1) && Appended(st1, st2, b, pieces)
    ensures CanDrop(st2, b, Kept(st.arr[b], li, ui), Elements(st.arr[b][li..End(li, ui)]) + Elements(pieces))
  {
  }

  /** New blocks are empty: the objects and what they refer to are the same. */
  ghost predicate SameObjects(st: Store, st1: Store) {
    && st1.locs == st.locs && (forall b :: b in st.arr ==> b in st1.arr && st1.arr[b] == st.arr[b])
    && forall b :: b in st1.arr && b !in st.arr ==> st1.arr[b] == []
  }

  /** What remains is the store without the run. */
  lemma DroppedStore(st: Store, st1: Store, st2: Store, b: Block, pieces: seq<Object>, li: nat, ui: nat,
                     addrs: seq<nat>)
    requires b in st.arr && li < |st.arr[b]| && ui < |st.arr[b]|
    requires SameObjects(st, st1) && Appended(st1, st2, b, pieces)
    ensures var dropped, kept := Elements(st.arr[b][li..End(li, ui)]) + Elements(pieces), Kept(st.arr[b], li, ui);
            AfterFreeing(st2, addrs).(arr := st2.arr[b := kept], locs := st2.locs - dropped)
            == WithoutRun(AfterFreeing(st1, addrs), b, st.arr[b], li, ui)
  {
  }

  /** How the deallocating loop ends. */
  ghost predicate Finished(st2: Store, st': Store, st1: Store, b: Block, arr: seq<Object>, li: nat, ui: nat,
                           err: Option<DeallocError>)
    requires li < |arr| && ui < |arr|
  {
    if AllFree(st2, arr, li, ui) then
      err == None && st' == WithoutRun(AfterFreeing(st1, Addresses(st2, arr, li, End(li, ui))), b, arr, li, ui)
    else exists i :: StoppedAt(st2, arr, li, ui, i, err) && st' == AfterFreeing(st2, Addresses(st2, arr, li, i))
  }

  /** The copying and deallocating loops. */
  method FinishRun(b: Block, obj: seq<Object>, lwIndex: nat, upIndex: nat, s: State,
                   ghost st: Store, ghost st1: Store, ghost pieces: seq<Object>) returns (err: Option<DeallocError>)
    requires s.Valid() && b in s.blocks && b in st.arr && obj == st.arr[b] && lwIndex < |obj| && upIndex < |obj|
    requires Exclusive(st.arr) && forall c, o :: c in st.arr && o in st.arr[c] ==> o in st.locs
    requires SameObjects(st, st1) && Appended(st1, s.Snapshot(), b, pieces)
    requires forall i :: lwIndex <= i <= upIndex ==> obj[i] in s.objects && Pointing(obj[i])
    modifies s, s.heap, b
    ensures s.Valid() && s.heap == old(s.heap) && s.Repr == old(s.Repr) && s.blocks == old(s.blocks)
    ensures Finished(old(s.Snapshot()), s.Snapshot(), st1, b, obj, lwIndex, upIndex, err)
  {
    ghost var st2 := s.Snapshot();
    var kept := CopyKept(obj, lwIndex, upIndex);
    err := DeallocObjects(obj, lwIndex, upIndex, s, st2);
    if err == None {
      ghost var end := End(lwIndex, upIndex);
      ghost var addrs := Addresses(st2, obj, lwIndex, end);
      DroppedIsGone(st, st1, st2, b, pieces, lwIndex, upIndex);
      DroppedStore(st, st1, st2, b, pieces, lwIndex, upIndex, addrs);
      SetArray(b, kept, s, AfterFreeing(st2, addrs), Elements(obj[lwIndex..end]) + Elements(pieces));
    }
  }

  /** The exact-bounds shortcut does what the general path does. */
  lemma ShortcutAgrees(st: Store, b: Block)
    requires Owning(st) && b in st.arr && |st.arr[b]| > 0 && Frees(st, st.arr[b][0])
    ensures Deallocated(st, WithoutFirst(st, b), b, 0, 0, [])
  {
  }

  /** The store after the shortcut: the first object is gone. */
  ghost function WithoutFirst(st: Store, b: Block): Store
    requires b in st.arr && |st.arr[b]| > 0 && Frees(st, st.arr[b][0])
  {
    WithoutObject(WithFreed(st, Target(st, st.arr[b][0])), b, 0)
  }

  /** The objects li..ui are deallocated unless one of them cannot be, or the last one cannot be split. */
  ghost predicate RunOutcome(st: Store, st': Store, b: Block, lw: int, up: int, li: nat, ui: nat,
                             err: Option<DeallocError>)
    requires b in st.arr && ConcreteArr(st.arr[b]) && li < |st.arr[b]| && ui < |st.arr[b]|
  {
    if Unsplittable(st, st.arr[b][ui], up) then err == Some(AssertionFails)
    else if AllFree(st, st.arr[b], li, ui) then
      && err == None
      && exists nbs :: Deallocated(st, st', b, li, ui, nbs) && |nbs| == Leftovers(st.arr[b], lw, up, li, ui)
    else
      && LeftoversStay(st, st', b, lw, up, li, ui)
      && exists nbs :: Interrupted(st, st', b, li, ui, nbs, err) && |nbs| == Leftovers(st.arr[b], lw, up, li, ui)
  }

  /** What block_range_dealloc returns and does when li and ui are the indices of the bounds. */
  ghost predicate OutcomeAt(st: Store, st': Store, b: Block, lw: int, up: int, li: int, ui: int,
                            err: Option<DeallocError>)
    requires b in st.arr && ConcreteArr(st.arr[b])
  {
    && IsIndex(st.arr[b], lw, li) && IsIndexUpperIncl(st.arr[b], up, ui)
    && if FirstSpans(st, st.arr[b], lw, up) then err == None && st' == WithoutFirst(st, b)
       else if li == -1 then err == Some(LowerNotAllocated) && st' == st
       else if ui == -1 then err == Some(UpperNotAllocated) && st' == st
       else RunOutcome(st, st', b, lw, up, li, ui, err)
  }

  ghost predicate RangeDeallocOutcome(st: Store, st': Store, b: Block, lw: int, up: int, err: Option<DeallocError>)
    requires b in st.arr && ConcreteArr(st.arr[b])
  {
    exists li, ui :: OutcomeAt(st, st', b, lw, up, li, ui, err)
  }

  /** The leftovers, after which deallocating the objects of the run comes to the same as before. */
  method PrepareRun(b: Block, lwIndex: nat, upIndex: nat, lw: Expr, up: Expr, s: State, ghost st: Store)
    returns (ghost nbs: seq<Block>, ghost pieces: seq<Object>)
    requires s.Valid() && b in s.blocks && st == s.Snapshot() && Owning(st) && b.arr == st.arr[b] && ConcreteArr(b.arr)
    requires Closed(lw) && Closed(up) && lwIndex < |b.arr| && upIndex < |b.arr|
    requires Bounded(b.arr, Val(lw), Val(up), lwIndex, upIndex) && !CannotSplit(b.arr[upIndex], up)
    modifies s, s.heap, b
    ensures s.Valid() && s.heap == old(s.heap) && fresh(s.Repr - old(s.Repr)) && b in s.blocks
    ensures Added(old(s.blocks), s.blocks, nbs) && |nbs| == Leftovers(st.arr[b], Val(lw), Val(up), lwIndex, upIndex)
    ensures SameObjects(st, WithNewBlocks(st, nbs)) && Appended(WithNewBlocks(st, nbs), s.Snapshot(), b, pieces)
    ensures old(s.objects) <= s.objects
    ensures SameTargets(st, s.Snapshot(), st.arr[b], lwIndex, upIndex)
    ensures AreLeftovers(st, s.Snapshot(), st.arr[b], Val(lw), Val(up), lwIndex, upIndex, pieces)
  {
    nbs, pieces := AppendLeftovers(b, lwIndex, upIndex, lw, up, s, st);
    LeftoversKeepRun(st, nbs, s.Snapshot(), b, pieces, lwIndex, upIndex);
  }

  /** The general path of block_range_dealloc, once the bounds are found. */
  method DeallocRun(b: Block, lwIndex: nat, upIndex: nat, lw: Expr, up: Expr, s: State, ghost st: Store)
    returns (err: Option<DeallocError>, ghost nbs: seq<Block>)
    requires s.Valid() && b in s.blocks && st == s.Snapshot() && Tidy(st) && b.arr == st.arr[b] && Checkable(s, b.arr)
    requires Closed(lw) && Closed(up) && lwIndex < |b.arr| && upIndex < |b.arr|
    requires Bounded(b.arr, Val(lw), Val(up), lwIndex, upIndex) && !CannotSplit(b.arr[upIndex], up)
    modifies s, s.heap, b
    ensures s.Valid() && s.heap == old(s.heap) && fresh(s.Repr - old(s.Repr)) && b in s.blocks
    ensures |nbs| == Leftovers(st.arr[b], Val(lw), Val(up), lwIndex, upIndex)
    ensures if AllFree(st, st.arr[b], lwIndex, upIndex) then
              err == None && Deallocated(st, s.Snapshot(), b, lwIndex, upIndex, nbs)
            else
              && Interrupted(st, s.Snapshot(), b, lwIndex, upIndex, nbs, err)
              && LeftoversStay(st, s.Snapshot(), b, Val(lw), Val(up), lwIndex, upIndex)
  {
    hide AreLeftovers, LeftoversStay, Deallocated, Interrupted, Finished, Appended, SameObjects, SameTargets,
         WithNewBlocks, Bounded, Leftovers, CannotSplit, AllFree;
    var obj := b.arr;
    ghost var pieces;
    nbs, pieces := PrepareRun(b, lwIndex, upIndex, lw, up, s, st);
    ghost var st2 := s.Snapshot();
    err := FinishRun(b, obj, lwIndex, upIndex, s, st, WithNewBlocks(st, nbs), pieces);
    FinishedIs(st, nbs, st2, s.Snapshot(), b, pieces, Val(lw), Val(up), lwIndex, upIndex, err);
  }

  lemma FinishedIs(st: Store, nbs: seq<Block>, st2: Store, st': Store, b: Block, pieces: seq<Object>, lw: int, up: int,
                   li: nat, ui: nat, err: Option<DeallocError>)
    requires Owning(st) && b in st.arr && ConcreteArr(st.arr[b]) && li < |st.arr[b]| && ui < |st.arr[b]|
    requires AreLeftovers(st, st2, st.arr[b], lw, up, li, ui, pieces)
    requires Distinct(nbs) && forall k :: 0 <= k < |nbs| ==> nbs[k] !in st.arr && nbs[k] in st2.arr && nbs[k] in st'.arr
    requires Appended(WithNewBlocks(st, nbs), st2, b, pieces) && SameObjects(st, WithNewBlocks(st, nbs))
    requires SameTargets(st, st2, st.arr[b], li, ui)
    requires Finished(st2, st', WithNewBlocks(st, nbs), b, st.arr[b], li, ui, err)
    ensures if AllFree(st, st.arr[b], li, ui) then err == None && Deallocated(st, st', b, li, ui, nbs)
            else Interrupted(st, st', b, li, ui, nbs, err) && LeftoversStay(st, st', b, lw, up, li, ui)
  {
    var arr := st.arr[b];
    SameRun(st, st2, arr, li, ui);
    hide AreLeftovers, LeftoversStay, Appended, SameObjects, WithNewBlocks, FreeAll, AfterFreeing, WithoutRun,
         Interrupted, Owning, Distinct, SameTarget;
    if !AllFree(st, arr, li, ui) {
      var i :| StoppedAt(st2, arr, li, ui, i, err) && st' == AfterFreeing(st2, Addresses(st2, arr, li, i));
      StoppedIsInterrupted(st, nbs, st2, b, pieces, lw, up, li, ui, i, err);
    }
  }

  lemma SameRun(st: Store, st2: Store, arr: seq<Object>, li: nat, ui: nat)
    requires li < |arr| && ui < |arr| && SameTargets(st, st2, arr, li, ui)
    ensures AllFree(st2, arr, li, ui) <==> AllFree(st, arr, li, ui)
    ensures AllFree(st, arr, li, ui) ==> Addresses(st2, arr, li, End(li, ui)) == Addresses(st, arr, li, End(li, ui))
  {
    if (forall k :: li <= k <= ui ==> Frees(st, arr[k])) || (forall k :: li <= k <= ui ==> Frees(st2, arr[k])) {
      assert forall k :: li <= k <= ui ==> SameTarget(st, st2, arr[k]);
      assert Addresses(st2, arr, li, End(li, ui)) == Addresses(st, arr, li, End(li, ui));
    }
  }

  lemma StoppedIsInterrupted(st: Store, nbs: seq<Block>, st2: Store, b: Block, pieces: seq<Object>, lw: int, up: int,
                             li: nat, ui: nat, i: nat, err: Option<DeallocError>)
    requires Owning(st) && b in st.arr && ConcreteArr(st.arr[b]) && li < |st.arr[b]| && ui < |st.arr[b]|
    requires AreLeftovers(st, st2, st.arr[b], lw, up, li, ui, pieces)
    requires Distinct(nbs) && forall k :: 0 <= k < |nbs| ==> nbs[k] !in st.arr && nbs[k] in st2.arr
    requires Appended(WithNewBlocks(st, nbs), st2, b, pieces) && SameObjects(st, WithNewBlocks(st, nbs))
    requires SameTargets(st, st2, st.arr[b], li, ui) && StoppedAt(st2, st.arr[b], li, ui, i, err)
    ensures Interrupted(st, AfterFreeing(st2, Addresses(st2, st.arr[b], li, i)), b, li, ui, nbs, err)
    ensures LeftoversStay(st, AfterFreeing(st2, Addresses(st2, st.arr[b], li, i)), b, lw, up, li, ui)
  {
    var arr := st.arr[b];
    assert forall k :: li <= k <= ui ==> SameTarget(st, st2, arr[k]);
    assert Addresses(st2, arr, li, i) == Addresses(st, arr, li, i);
    assert StoppedAt(st, arr, li, ui, i, err);
    var st' := AfterFreeing(st2, Addresses(st2, arr, li, i));
    assert st'.arr[b][|arr|..] == pieces;
    assert st'.(freed := WithNewBlocks(st, nbs).freed) == st2;
  }

  /** The general path, from the indices of the bounds on. */
  method DeallocFound(b: Block, lwIndex: nat, upIndex: nat, lw: Expr, up: Expr, s: State, ghost st: Store)
    returns (err: Option<DeallocError>)
    requires s.Valid() && b in s.blocks && st == s.Snapshot() && Tidy(st) && b.arr == st.arr[b] && Checkable(s, b.arr)
    requires Closed(lw) && Closed(up) && lwIndex < |b.arr| && upIndex < |b.arr|
    requires IsIndex(b.arr, Val(lw), lwIndex) && IsIndexUpperIncl(b.arr, Val(up), upIndex)
    modifies s, s.heap, b
    ensures s.Valid() && s.heap == old(s.heap) && fresh(s.Repr - old(s.Repr)) && b in s.blocks
    ensures RunOutcome(st, s.Snapshot(), b, Val(lw), Val(up), lwIndex, upIndex, err)
  {
    CannotSplitIs(s, b.arr[upIndex], up);
    hide LeftoversStay, Deallocated, Interrupted, Leftovers, AllFree, Unsplittable, CannotSplit;
    if CannotSplit(b.arr[upIndex], up) {
      return Some(AssertionFails);
    }
    ghost var nbs;
    err, nbs := DeallocRun(b, lwIndex, upIndex, lw, up, s, st);
  }

  lemma MissingIs(st: Store, b: Block, lw: int, up: int, li: int, ui: int)
    requires b in st.arr && ConcreteArr(st.arr[b]) && (li == -1 || ui == -1) && !FirstSpans(st, st.arr[b], lw, up)
    requires IsIndex(st.arr[b], lw, li) && IsIndexUpperIncl(st.arr[b], up, ui)
    ensures RangeDeallocOutcome(st, st, b, lw, up, Some(if li == -1 then LowerNotAllocated else UpperNotAllocated))
  {
    assert OutcomeAt(st, st, b, lw, up, li, ui, Some(if li == -1 then LowerNotAllocated else UpperNotAllocated));
  }

  lemma FoundIs(st: Store, st': Store, b: Block, lw: int, up: int, li: nat, ui: nat, err: Option<DeallocError>)
    requires b in st.arr && ConcreteArr(st.arr[b]) && li < |st.arr[b]| && ui < |st.arr[b]|
    requires IsIndex(st.arr[b], lw, li) && IsIndexUpperIncl(st.arr[b], up, ui)
    requires !FirstSpans(st, st.arr[b], lw, up) && RunOutcome(st, st', b, lw, up, li, ui, err)
    ensures RangeDeallocOutcome(st, st', b, lw, up, err)
  {
    assert OutcomeAt(st, st', b, lw, up, li, ui, err);
  }

  lemma FirstIs(st: Store, b: Block, lw: int, up: int)
    requires b in st.arr && ConcreteArr(st.arr[b]) && FirstSpans(st, st.arr[b], lw, up)
    ensures RangeDeallocOutcome(st, WithoutFirst(st, b), b, lw, up, None)
  {
    var li := IndexExists(st.arr[b], lw);
    var ui := IndexUpperInclExists(st.arr[b], up);
    assert OutcomeAt(st, WithoutFirst(st, b), b, lw, up, li, ui, None);
  }

  /** The general path: find both bounds, then deallocate the run between them. */
  method DeallocBetween(b: Block, lw: Expr, up: Expr, s: State, ghost st: Store)
    returns (err: Option<DeallocError>)
    requires Ready(s, b) && st == s.Snapshot() && b.arr == st.arr[b] && Checkable(s, b.arr)
    requires Closed(lw) && Closed(up) && !FirstSpans(st, b.arr, Val(lw), Val(up))
    modifies s, s.heap, b
    ensures s.Valid() && s.heap == old(s.heap) && fresh(s.Repr - old(s.Repr)) && b in s.blocks
    ensures RangeDeallocOutcome(st, s.Snapshot(), b, Val(lw), Val(up), err)
  {
    hide RangeDeallocOutcome, RunOutcome, FirstSpans, Tidy;
    var lwIndex := ArrIndex(b.arr, lw);
    if lwIndex == -1 {
      ghost var ui := IndexUpperInclExists(b.arr, Val(up));
      MissingIs(st, b, Val(lw), Val(up), lwIndex, ui);
      return Some(LowerNotAllocated);
    }
    var upIndex := ArrIndexUpperIncl(b.arr, up);
    if upIndex == -1 {
      MissingIs(st, b, Val(lw), Val(up), lwIndex, upIndex);
      return Some(UpperNotAllocated);
    }
    err := DeallocFound(b, lwIndex, upIndex, lw, up, s, st);
    FoundIs(st, s.Snapshot(), b, Val(lw), Val(up), lwIndex, upIndex, err);
  }

  /** block_range_dealloc */
  method RangeDealloc(b: Block, lw: Expr, up: Expr, s: State, ghost st: Store)
    returns (err: Option<DeallocError>)
    requires Ready(s, b) && st == s.Snapshot() && b.arr == st.arr[b] && Checkable(s, b.arr)
    requires Closed(lw) && Closed(up)
    modifies s, s.heap, b
    ensures s.Valid() && s.heap == old(s.heap) && fresh(s.Repr - old(s.Repr)) && b in s.blocks
    ensures RangeDeallocOutcome(st, s.Snapshot(), b, Val(lw), Val(up), err)
  {
    if FirstIsExactly(b.arr, lw, up, s) {
      DeallocFirst(b, lw, up, s, st);
      return None;
    }
    err := DeallocBetween(b, lw, up, s, st);
  }

  /** The exact-bounds shortcut. */
  method DeallocFirst(b: Block, lw: Expr, up: Expr, s: State, ghost st: Store)
    requires s.Valid() && b in s.blocks && st == s.Snapshot() && Tidy(st) && b.arr == st.arr[b] && Checkable(s, b.arr)
    requires Closed(lw) && Closed(up) && FirstSpans(st, b.arr, Val(lw), Val(up))
    modifies s, s.heap, b
    ensures s.Valid() && s.heap == old(s.heap) && s.Repr == old(s.Repr) && b in s.blocks
    ensures RangeDeallocOutcome(st, s.Snapshot(), b, Val(lw), Val(up), None)
  {
    FirstIs(st, b, Val(lw), Val(up));
    var err := DeallocObject(b.arr[0], s);
    assert err == None;
    s.RemoveObject(b, 0);
  }

  datatype LocationError = OffsetNotZero | CannotGetBlock | NotDeallocands | Dealloc(error: DeallocError)

  /** The block of a location that state_getblock finds belongs to the state. */
  lemma GetBlockIsInState(s: State, loc: Location)
    requires s.Valid() && s.InFrame(loc) && s.GetBlock(loc).Some?
    ensures s.GetBlock(loc).value in s.blocks
  {
  }

  /** The error of block_range_dealloc, passed on. */
  function PassedOn(err: Option<DeallocError>): Option<LocationError> {
    match err
    case None => None
    case Some(e) => Some(Dealloc(e))
  }

  /** What happens once the block is found and the range is judged: an abort unless the answer is yes. */
  ghost predicate JudgedOutcome(st: Store, st': Store, b: Block, lw: int, up: int, li: int, ui: int, r: Verdict,
                                err: Option<LocationError>)
    requires b in st.arr && ConcreteArr(st.arr[b])
  {
    && Judged(st, st.arr[b], lw, up, li, ui, r)
    && if r != Yes then err == Some(NotDeallocands) && st' == st
       else exists e :: OutcomeAt(st, st', b, lw, up, li, ui, e) && err == PassedOn(e)
  }

  ghost predicate LocationOutcome(st: Store, st': Store, b: Block, lw: int, up: int, err: Option<LocationError>)
    requires b in st.arr && ConcreteArr(st.arr[b])
  {
    exists li, ui, r :: JudgedOutcome(st, st', b, lw, up, li, ui, r, err)
  }

  /** location_range_dealloc: an abort when the location has an offset, an error when there is no block, and an abort
      when the range is not deallocatable. */
  method LocationRangeDealloc(loc: Location, lw: Expr, up: Expr, s: State, ghost b: Option<Block>, ghost st: Store)
    returns (err: Option<LocationError>)
    requires s.Valid() && st == s.Snapshot() && Tidy(st) && s.InFrame(loc) && b == s.GetBlock(loc)
    requires Closed(lw) && Closed(up)
    requires b.Some? ==> Checkable(s, b.value.arr)
    modifies s, s.heap, if b.Some? then {b.value} else {}
    ensures s.Valid() && s.heap == old(s.heap) && fresh(s.Repr - old(s.Repr))
    ensures loc.offset != Constant(0) ==> err == Some(OffsetNotZero) && s.Snapshot() == st
    ensures loc.offset == Constant(0) && b.None? ==> err == Some(CannotGetBlock) && s.Snapshot() == st
    ensures loc.offset == Constant(0) && b.Some? ==> LocationOutcome(st, s.Snapshot(), b.value, Val(lw), Val(up), err)
  {
    if loc.offset != Constant(0) {
      return Some(OffsetNotZero);
    }
    var found := s.GetBlock(loc);
    if found.None? {
      return Some(CannotGetBlock);
    }
    GetBlockIsInState(s, loc);
    assert st.arr[found.value] == found.value.arr;
    err := CheckedDealloc(found.value, lw, up, s, st);
  }

  method CheckedDealloc(b: Block, lw: Expr, up: Expr, s: State, ghost st: Store) returns (err: Option<LocationError>)
    requires Ready(s, b) && st == s.Snapshot() && b.arr == st.arr[b] && Checkable(s, b.arr)
    requires Closed(lw) && Closed(up)
    modifies s, s.heap, b
    ensures s.Valid() && s.heap == old(s.heap) && fresh(s.Repr - old(s.Repr))
    ensures LocationOutcome(st, s.Snapshot(), b, Val(lw), Val(up), err)
  {
    hide State.Valid, Judged, LocationOutcome, RangeDeallocOutcome, PassedOn;
    var verdict := AreDeallocands(b, lw, up, s);
    ghost var li, ui :| Judged(st, st.arr[b], Val(lw), Val(up), li, ui, verdict);
    if !verdict.Yes? {
      NotYesIs(st, b, Val(lw), Val(up), li, ui, verdict);
      return Some(NotDeallocands);
    }
    var e := RangeDealloc(b, lw, up, s, st);
    YesOutcomeIs(st, s.Snapshot(), b, Val(lw), Val(up), li, ui, e);
    err := PassedOn(e);
  }

  lemma NotYesIs(st: Store, b: Block, lw: int, up: int, li: int, ui: int, r: Verdict)
    requires b in st.arr && ConcreteArr(st.arr[b]) && Judged(st, st.arr[b], lw, up, li, ui, r) && r != Yes
    ensures LocationOutcome(st, st, b, lw, up, Some(NotDeallocands))
  {
    assert JudgedOutcome(st, st, b, lw, up, li, ui, r, Some(NotDeallocands));
  }

  lemma YesOutcomeIs(st: Store, st': Store, b: Block, lw: int, up: int, li: int, ui: int, e: Option<DeallocError>)
    requires b in st.arr && ConcreteArr(st.arr[b]) && Judged(st, st.arr[b], lw, up, li, ui, Yes)
    requires RangeDeallocOutcome(st, st', b, lw, up, e)
    ensures LocationOutcome(st, st', b, lw, up, PassedOn(e))
  {
    OutcomeIsAt(st, st', b, lw, up, li, ui, e);
    assert JudgedOutcome(st, st', b, lw, up, li, ui, Yes, PassedOn(e));
  }

  /** The indices of the bounds are unique. */
  lemma OutcomeIsAt(st: Store, st': Store, b: Block, lw: int, up: int, li: int, ui: int, err: Option<DeallocError>)
    requires b in st.arr && ConcreteArr(st.arr[b]) && RangeDeallocOutcome(st, st', b, lw, up, err)
    requires IsIndex(st.arr[b], lw, li) && IsIndexUpperIncl(st.arr[b], up, ui)
    ensures OutcomeAt(st, st', b, lw, up, li, ui, err)
  {
    var l, u :| OutcomeAt(st, st', b, lw, up, l, u, err);
    assert l == li && u == ui;
  }

  /** When the range was found deallocatable, neither bound can be missing: only a failing assertion or two objects
      that name one block are left. */
  lemma YesHasBounds(st: Store, st': Store, b: Block, lw: int, up: int, li: int, ui: int, err: Option<LocationError>)
    requires b in st.arr && ConcreteArr(st.arr[b]) && JudgedOutcome(st, st', b, lw, up, li, ui, Yes, err)
    ensures err.Some? ==> err == Some(Dealloc(AssertionFails)) || err == Some(Dealloc(DoubleFree))
  {
    hide AreLeftovers, LeftoversStay, Deallocated, Appended, Leftovers, WithNewBlocks, FreeAll, Unsplittable, AllFree,
         Frees, Joined, Lo, Hi, In;
    var arr := st.arr[b];
    var e :| OutcomeAt(st, st', b, lw, up, li, ui, e) && err == PassedOn(e);
    if !FirstSpans(st, arr, lw, up) {
      forall k | li <= k <= ui
        ensures Frees(st, arr[k])
      {
        assert k < ui ==> Adjoining(st, arr, k);
      }
      if i :| StoppedAt(st, arr, li, ui, i, e) {
        StoppedIsNotFree(st, arr, li, ui, i, e);
      }
    }
  }

  // ---- what deallocating means ----

  lemma DeallocatedStore(st: Store, st': Store, b: Block, li: nat, ui: nat, nbs: seq<Block>)
    requires Owning(st) && IsRun(st, b, li, ui)
    requires Deallocated(st, st', b, li, ui, nbs)
    ensures var st1 := WithNewBlocks(st, nbs);
            && Owning(st1) && SameObjects(st, st1) && LiveCount(st1.freed) == LiveCount(st.freed) + |nbs|
            && (forall k :: li <= k <= ui ==> Frees(st1, st.arr[b][k]))
            && Addresses(st1, st.arr[b], li, End(li, ui)) == Addresses(st, st.arr[b], li, End(li, ui))
  {
    NewBlocksFrames(st, nbs);
    hide Owning, WithNewBlocks, WithoutRun, FreeAll, AfterFreeing, Deallocated, Distinct;
  }

  /** The remaining objects are disjoint, and every remaining range still owns a live block of its own, if and only
      if the lower bound was not found more than one place after the upper one. */
  lemma DeallocKeepsTidyExactlyWhen(st: Store, st': Store, b: Block, li: nat, ui: nat, nbs: seq<Block>)
    requires Tidy(st) && IsRun(st, b, li, ui)
    requires Deallocated(st, st', b, li, ui, nbs)
    ensures Tidy(st') <==> li <= ui + 1
  {
    DeallocatedStore(st, st', b, li, ui, nbs);
    RunRemovalKeepsExactlyWhen(WithNewBlocks(st, nbs), b, li, ui);
    if li <= ui + 1 {
      KeptStaysDisjoint(st.arr[b], li, ui);
      forall c | c in st'.arr
        ensures ConcreteArr(st'.arr[c]) && Disjoint(st'.arr[c])
      {
        if c != b && c in st.arr {
          assert st'.arr[c] == st.arr[c];
        }
      }
    }
  }

  lemma KeptStaysDisjoint(arr: seq<Object>, li: nat, ui: nat)
    requires ConcreteArr(arr) && Disjoint(arr) && li < |arr| && ui < |arr| && li <= ui + 1
    ensures ConcreteArr(Kept(arr, li, ui)) && Disjoint(Kept(arr, li, ui))
  {
  }

  lemma {:induction false} LiveCountFreeAll(freed: seq<bool>, addrs: seq<nat>)
    requires Distinct(addrs) && forall i :: 0 <= i < |addrs| ==> addrs[i] < |freed| && !freed[addrs[i]]
    ensures LiveCount(FreeAll(freed, addrs)) == LiveCount(freed) - |addrs|
  {
    if addrs == [] {
      assert FreeAll(freed, addrs) == freed;
    } else {
      var n := |addrs| - 1;
      LiveCountFreeAll(freed, addrs[..n]);
      assert addrs == addrs[..n] + [addrs[n]];
      assert FreeAll(freed, addrs) == FreeAll(freed, addrs[..n])[addrs[n] := true];
      LiveCountFreed(FreeAll(freed, addrs[..n]), addrs[n]);
    }
  }

  /** Each object of the run frees exactly one live block, and each leftover costs one that stays allocated. */
  lemma DeallocCounts(st: Store, st': Store, b: Block, li: nat, ui: nat, nbs: seq<Block>)
    requires Owning(st) && IsRun(st, b, li, ui)
    requires Deallocated(st, st', b, li, ui, nbs)
    ensures LiveCount(st'.freed) == LiveCount(st.freed) + |nbs| - (End(li, ui) - li)
  {
    DeallocatedStore(st, st', b, li, ui, nbs);
    var st1 := WithNewBlocks(st, nbs);
    var addrs := Addresses(st, st.arr[b], li, End(li, ui));
    forall i | 0 <= i < |addrs|
      ensures addrs[i] < |st1.freed| && !st1.freed[addrs[i]]
    {
      assert Frees(st1, st.arr[b][li + i]);
    }
    LiveCountFreeAll(st1.freed, addrs);
  }

  /** The blocks that stop being live are exactly those the objects of the run name. */
  lemma DeallocFreesTheRun(st: Store, st': Store, b: Block, li: nat, ui: nat, nbs: seq<Block>, a: nat)
    requires Owning(st) && IsRun(st, b, li, ui)
    requires Deallocated(st, st', b, li, ui, nbs) && Live(st, a)
    ensures !Live(st', a) <==> exists k :: li <= k <= ui && Target(st, st.arr[b][k]) == a
  {
    NewBlocksFrames(st, nbs);
    var addrs := Addresses(st, st.arr[b], li, End(li, ui));
    if a in addrs {
      var i :| 0 <= i < |addrs| && addrs[i] == a;
      assert Target(st, st.arr[b][li + i]) == a;
    }
    if k :| li <= k <= ui && Target(st, st.arr[b][k]) == a {
      assert addrs[k - li] == a;
    }
  }

  /** The objects of the run cover exactly the offsets between its ends. */
  lemma RunCovers(st: Store, arr: seq<Object>, lw: int, up: int, li: nat, ui: nat, k: nat, x: int)
    requires ConcreteArr(arr) && Disjoint(arr) && lw < up && Span(st, arr, lw, up, li, ui)
    requires li <= k <= ui && In(x, arr[k])
    ensures Lo(arr[li]) <= x < Hi(arr[ui])
  {
    if x >= Hi(arr[ui]) {
      var m := JoinedCrosses(arr, li, k, Hi(arr[ui]) - 1);
      assert In(Hi(arr[ui]) - 1, arr[ui]);
    }
    if x < Lo(arr[li]) {
      var m := JoinedCrosses(arr, k, ui, Lo(arr[li]));
      assert In(Lo(arr[li]), arr[li]);
    }
  }

  lemma OutsideIsKept(arr: seq<Object>, li: nat, ui: nat, k: nat, x: int)
    requires ConcreteArr(arr) && li < |arr| && ui < |arr| && k < |arr| && !(li <= k <= ui) && In(x, arr[k])
    ensures ConcreteArr(Kept(arr, li, ui)) && Covered(Kept(arr, li, ui), x)
  {
    assert Kept(arr, li, ui)[if k < li then k else li + (k - ui - 1)] == arr[k];
  }

  lemma KeptIsOutside(arr: seq<Object>, li: nat, ui: nat, x: int) returns (k: nat)
    requires ConcreteArr(arr) && li < |arr| && ui < |arr|
    requires ConcreteArr(Kept(arr, li, ui)) && Covered(Kept(arr, li, ui), x)
    ensures k < |arr| && !(li <= k <= ui) && In(x, arr[k])
  {
    var i :| 0 <= i < |Kept(arr, li, ui)| && In(x, Kept(arr, li, ui)[i]);
    k := if i < li then i else i - li + ui + 1;
  }

  lemma KeptCovers(st: Store, arr: seq<Object>, lw: int, up: int, li: nat, ui: nat, x: int)
    requires ConcreteArr(arr) && Disjoint(arr) && lw < up && Span(st, arr, lw, up, li, ui)
    ensures ConcreteArr(Kept(arr, li, ui))
    ensures Covered(Kept(arr, li, ui), x) <==> Covered(arr, x) && !(Lo(arr[li]) <= x < Hi(arr[ui]))
  {
    if Covered(Kept(arr, li, ui), x) {
      var k := KeptIsOutside(arr, li, ui, x);
      if Lo(arr[li]) <= x < Hi(arr[ui]) {
        var m := JoinedCrosses(arr, li, ui, x);
      }
    }
    if Covered(arr, x) && !(Lo(arr[li]) <= x < Hi(arr[ui])) {
      var k :| 0 <= k < |arr| && In(x, arr[k]);
      if li <= k <= ui {
        RunCovers(st, arr, lw, up, li, ui, k, x);
      }
      OutsideIsKept(arr, li, ui, k, x);
    }
  }

  /** When the lower bound was found after the upper one, deallocating frees nothing. */
  lemma InvertedFreesNothing(st: Store, st': Store, b: Block, li: nat, ui: nat, nbs: seq<Block>, a: nat)
    requires Owning(st) && IsRun(st, b, li, ui) && li > ui && Deallocated(st, st', b, li, ui, nbs)
    ensures Live(st, a) ==> Live(st', a)
  {
    NewBlocksFrames(st, nbs);
  }

  /** And it uncovers nothing. */
  lemma InvertedUncoversNothing(st: Store, st': Store, b: Block, li: nat, ui: nat, nbs: seq<Block>, x: int)
    requires IsRun(st, b, li, ui) && ConcreteArr(st.arr[b]) && li > ui && Deallocated(st, st', b, li, ui, nbs)
    ensures ConcreteArr(st'.arr[b]) && (Covered(st'.arr[b], x) <==> Covered(st.arr[b], x))
  {
    var arr := st.arr[b];
    assert st'.arr[b] == Kept(arr, li, ui);
    hide Deallocated, Frees;
    if Covered(arr, x) {
      var k :| 0 <= k < |arr| && In(x, arr[k]);
      OutsideIsKept(arr, li, ui, k, x);
    }
    if Covered(st'.arr[b], x) {
      var k := KeptIsOutside(arr, li, ui, x);
    }
  }

  /** Deallocating [lw, up) removes exactly the offsets in it if and only if the lower bound was found no later than
      the upper one and both are boundaries of objects: a part of the run outside the bounds is lost. */
  lemma DeallocIsExactExactlyWhen(st: Store, st': Store, b: Block, lw: int, up: int, li: nat, ui: nat, nbs: seq<Block>)
    requires Tidy(st) && b in st.arr && lw < up && IsRun(st, b, li, ui) && In(lw, st.arr[b][li])
    requires li <= ui ==> Span(st, st.arr[b], lw, up, li, ui)
    requires Deallocated(st, st', b, li, ui, nbs)
    ensures ConcreteArr(st'.arr[b])
    ensures (forall x :: Covered(st'.arr[b], x) <==> Covered(st.arr[b], x) && !(lw <= x < up)) <==>
            li <= ui && lw == Lo(st.arr[b][li]) && up == Hi(st.arr[b][ui])
  {
    var arr := st.arr[b];
    if li > ui {
      InvertedUncoversNothing(st, st', b, li, ui, nbs, lw);
      assert Covered(arr, lw);
    } else {
      RunIsExactOnBoundaries(st, st', b, lw, up, li, ui, nbs);
    }
  }

  lemma RunIsExactOnBoundaries(st: Store, st': Store, b: Block, lw: int, up: int, li: nat, ui: nat, nbs: seq<Block>)
    requires b in st.arr && ConcreteArr(st.arr[b]) && Disjoint(st.arr[b])
    requires lw < up && Span(st, st.arr[b], lw, up, li, ui)
    requires Deallocated(st, st', b, li, ui, nbs)
    ensures ConcreteArr(st'.arr[b])
    ensures (forall x :: Covered(st'.arr[b], x) <==> Covered(st.arr[b], x) && !(lw <= x < up)) <==>
            lw == Lo(st.arr[b][li]) && up == Hi(st.arr[b][ui])
  {
    var arr := st.arr[b];
    var lo, hi := Lo(arr[li]), Hi(arr[ui]);
    assert forall k :: 0 <= k < |st'.arr[b]| ==> st'.arr[b][k] in arr;
    forall x
      ensures Covered(st'.arr[b], x) <==> Covered(arr, x) && !(lo <= x < hi)
    {
      KeptCovers(st, arr, lw, up, li, ui, x);
    }
    assert In(lo, arr[li]) && Covered(arr, lo);
    if up < hi {
      assert In(up, arr[ui]) && Covered(arr, up);
    }
  }
}
