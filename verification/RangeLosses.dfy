/** Two runs of the allocator, from an empty state on, in which deallocating a range succeeds and loses or keeps cells
    that it should not. */
module RangeLosses {
  import opened Util
  import opened Ast
  import opened ExprMath
  import opened Memory
  import opened Ownership
  import opened Tiles
  import opened Allocator
  import opened Ranges

  /** A single range [lw, up) that owns its block. */
  ghost predicate OneRange(st: Store, b: Block, lw: int, up: int) {
    && Tidy(st) && b in st.arr && |st.arr[b]| >= 1 && st.arr[b][0].range.Some?
    && Lo(st.arr[b][0]) == lw && Hi(st.arr[b][0]) == up
  }

  lemma RangeFrees(st: Store, b: Block, lw: int, up: int)
    requires OneRange(st, b, lw, up)
    ensures Frees(st, st.arr[b][0])
  {
    assert Owns(st, st.arr[b][0]);
  }

  lemma NewStateIsTidy(s: State)
    requires s.Valid() && s.heap.blocks == [] && s.heap.freed == []
    requires |s.frames| >= 1 && |s.frames[0].blocks| >= 1 && s.blocks == {s.frames[0].blocks[0]}
    requires |s.frames[0].blocks[0].arr| == 1
    requires var o := s.frames[0].blocks[0].arr[0];
             s.objects == {o} && o.offset == Constant(0) && o.range == None && o.value == None
    ensures Tidy(s.Snapshot())
  {
  }

  /** A state with an empty heap block. */
  method EmptyBlock() returns (s: State, b: Block)
    ensures Ready(s, b) && fresh(s.Repr) && b.arr == []
  {
    s := new State();
    NewStateIsTidy(s);
    ghost var st := s.Snapshot();
    var v;
    ghost var nb;
    v, nb := s.Alloc();
    NewBlockKeeps(st, nb);
    assert s.Snapshot().heap[|st.heap|] == nb;
    b := s.GetBlock(v.loc).value;
    assert s.Snapshot().arr[b] == b.arr;
  }

  method AllocatedRange(lw: int, up: int) returns (s: State, b: Block)
    ensures Ready(s, b) && fresh(s.Repr) && fresh(s) && fresh(s.heap) && fresh(b)
    ensures OneRange(s.Snapshot(), b, lw, up) && |b.arr| == 1
  {
    s, b := EmptyBlock();
    ghost var st := s.Snapshot();
    assert st.arr[b] == b.arr;
    var o;
    ghost var nb;
    o, nb := RangeAlloc(b, Constant(lw), Constant(up), s);
    RangeIsOne(st, s.Snapshot(), b, lw, up, o, nb);
    assert s.Snapshot().arr[b] == b.arr;
  }

  lemma RangeIsOne(st: Store, st': Store, b: Block, lw: int, up: int, o: Object, nb: Block)
    requires Tidy(st) && b in st.arr && st.arr[b] == []
    requires RangeAllocated(st, st', b, Constant(lw), Constant(up), o, nb)
    ensures OneRange(st', b, lw, up) && |st'.arr[b]| == 1
  {
    RangeAllocKeepsTidy(st, st', b, Constant(lw), Constant(up), o, nb);
    ValOfSum(Constant(up), Constant(lw));
    ValOfSum(o.offset, Size(o));
  }

  // ---- a range in the middle of another ----

  lemma MiddleIsJudged(st: Store, b: Block, li: int, ui: int, r: Verdict)
    requires OneRange(st, b, 0, 10) && |st.arr[b]| == 1 && Judged(st, st.arr[b], 2, 5, li, ui, r)
    ensures li == 0 && ui == 0 && r == Yes
  {
    RangeFrees(st, b, 0, 10);
    assert In(2, st.arr[b][0]);
  }

  lemma MiddleLosesAll(st: Store, st': Store, b: Block, li: int, ui: int, r: Verdict, err: Option<LocationError>)
    requires OneRange(st, b, 0, 10) && |st.arr[b]| == 1 && JudgedOutcome(st, st', b, 2, 5, li, ui, r, err)
    ensures err == None && b in st'.arr && st'.arr[b] == []
  {
    MiddleIsJudged(st, b, li, ui, r);
    var e :| OutcomeAt(st, st', b, 2, 5, 0, 0, e) && err == PassedOn(e);
    assert AllFree(st, st.arr[b], 0, 0);
    var nbs :| Deallocated(st, st', b, 0, 0, nbs);
  }

  lemma RangesAreCheckable(s: State, b: Block)
    requires Ready(s, b) && forall o :: o in b.arr ==> o.range.Some? || o.value.None?
    ensures Checkable(s, b.arr)
  {
    var st := s.Snapshot();
    assert st.arr[b] == b.arr;
    forall i | 0 <= i < |b.arr|
      ensures Pointing(b.arr[i]) && forall l :: l in b.arr[i].Locs() ==> s.InFrame(l)
    {
      if b.arr[i].range.Some? {
        assert Owns(st, b.arr[i]);
      }
    }
  }

  /** Deallocating [2, 5) of a range [0, 10) succeeds, and leaves no cell of it. */
  method LeftoversAreLost() returns (s: State, b: Block, err: Option<LocationError>, ghost st: Store)
    ensures OneRange(st, b, 0, 10) && |st.arr[b]| == 1
    ensures s.Valid() && b in s.blocks && err == None && b.arr == []
  {
    s, b := AllocatedRange(0, 10);
    st := s.Snapshot();
    assert st.arr[b] == b.arr;
    RangesAreCheckable(s, b);
    err := CheckedDealloc(b, Constant(2), Constant(5), s, st);
    ghost var li, ui, r :| JudgedOutcome(st, s.Snapshot(), b, 2, 5, li, ui, r, err);
    MiddleLosesAll(st, s.Snapshot(), b, li, ui, r, err);
    assert s.Snapshot().arr[b] == b.arr;
  }

  // ---- a lower bound found after the upper one ----

  /** A range [5, 10) with the cell 0 after it in the array. */
  ghost predicate CellAfterRange(st: Store, b: Block) {
    && OneRange(st, b, 5, 10) && |st.arr[b]| == 2 && st.arr[b][1].range.None?
    && Lo(st.arr[b][1]) == 0 && Hi(st.arr[b][1]) == 1
  }

  lemma ObservedAfterRange(st: Store, st': Store, b: Block, obj: Option<Object>)
    requires OneRange(st, b, 5, 10) && |st.arr[b]| == 1 && Tidy(st')
    requires Observed(st, st', b, Constant(0), true, obj)
    ensures CellAfterRange(st', b) && !Covered(st.arr[b], 0) && obj == Some(st'.arr[b][1])
  {
    var i :| ObservedAt(st, st', b, Constant(0), true, obj, i);
    CellBounds(obj.value);
    assert st'.arr[b] == st.arr[b] + [obj.value];
  }

  lemma LowerIsAfterUpper(st: Store, b: Block, li: int, ui: int, r: Verdict)
    requires CellAfterRange(st, b) && Judged(st, st.arr[b], 0, 6, li, ui, r)
    ensures li == 1 && ui == 0 && r == Yes
  {
    RangeFrees(st, b, 5, 10);
    assert In(0, st.arr[b][1]) && !In(0, st.arr[b][0]);
    assert In(6, st.arr[b][0]);
  }

  lemma LowerAfterUpperKeepsAll(st: Store, st': Store, b: Block, li: int, ui: int, r: Verdict,
                                err: Option<LocationError>)
    requires CellAfterRange(st, b) && JudgedOutcome(st, st', b, 0, 6, li, ui, r, err)
    ensures err == None && b in st'.arr && st'.arr[b] == st.arr[b]
  {
    LowerIsAfterUpper(st, b, li, ui, r);
    var e :| OutcomeAt(st, st', b, 0, 6, 1, 0, e) && err == PassedOn(e);
    assert AllFree(st, st.arr[b], 1, 0);
    var nbs :| Deallocated(st, st', b, 1, 0, nbs);
  }

  method RangeAndCell() returns (s: State, b: Block)
    ensures Ready(s, b) && fresh(s.Repr) && CellAfterRange(s.Snapshot(), b) && Checkable(s, b.arr)
  {
    hide State.Valid, Observed, Tidy, Checkable;
    s, b := AllocatedRange(5, 10);
    ghost var st := s.Snapshot();
    assert st.arr[b] == b.arr;
    var obj := Observe(b, Constant(0), s, true);
    ObservedAfterRange(st, s.Snapshot(), b, obj);
    assert s.Snapshot().arr[b] == b.arr;
    RangesAreCheckable(s, b);
  }

  /** Of a block that holds the cells 0 and 5 to 9, [0, 6) is deallocated with success: cells that were never
      allocated are no obstacle, and none of the others is freed. */
  method NothingIsDeallocated() returns (s: State, b: Block, err: Option<LocationError>, ghost st: Store)
    ensures CellAfterRange(st, b)
    ensures s.Valid() && b in s.blocks && err == None && b.arr == st.arr[b]
  {
    s, b := RangeAndCell();
    st := s.Snapshot();
    assert st.arr[b] == b.arr;
    err := CheckedDealloc(b, Constant(0), Constant(6), s, st);
    ghost var li, ui, r :| JudgedOutcome(st, s.Snapshot(), b, 0, 6, li, ui, r, err);
    LowerAfterUpperKeepsAll(st, s.Snapshot(), b, li, ui, r, err);
    assert s.Snapshot().arr[b] == b.arr;
  }
}
