/** Whole runs of the allocator: any sequence of successful allocations, range allocations, observations, range
    deallocations, deallocations through a pointer and assignments. */
module Runs {
  import opened Util
  import opened Ast
  import opened ExprMath
  import opened Memory
  import opened Ownership
  import opened Tiles
  import opened Allocator
  import opened Ranges

  datatype Op =
    | Alloc(nb: Block)
    | AllocRange(b: Block, lw: Expr, up: Expr, o: Object, nb: Block)
    | ObserveAt(b: Block, offset: Expr, constructive: bool, obj: Option<Object>)
    | DeallocRange(b: Block, lw: Expr, up: Expr)
    | Dealloc(v: Value)
    | Assign(o: Object, val: Option<Value>)

  /** A heap block that exists and belongs to no range. */
  ghost predicate Assignable(st: Store, l: Location) {
    l.Dynamic? ==> l.block < |st.heap| && Unowned(st, l.block)
  }

  /** block_range_dealloc succeeds: by the shortcut, or with the lower bound found at most one place after the upper
      one. */
  ghost predicate RangeDeallocated(st: Store, st': Store, b: Block, lw: int, up: int)
    requires b in st.arr && ConcreteArr(st.arr[b])
  {
    exists li, ui :: InOrder(st, b, lw, up, li, ui) && OutcomeAt(st, st', b, lw, up, li, ui, None)
  }

  ghost predicate InOrder(st: Store, b: Block, lw: int, up: int, li: int, ui: int)
    requires b in st.arr && ConcreteArr(st.arr[b])
  {
    FirstSpans(st, st.arr[b], lw, up) || li <= ui + 1
  }

  /** What it removed: the first object, or the run between the bounds. */
  lemma OutcomeRemoves(st: Store, st': Store, b: Block, lw: int, up: int, li: int, ui: int)
    returns (l: nat, u: nat, nbs: seq<Block>)
    requires Owning(st) && b in st.arr && ConcreteArr(st.arr[b])
    requires InOrder(st, b, lw, up, li, ui) && OutcomeAt(st, st', b, lw, up, li, ui, None)
    ensures l <= u + 1 && IsRun(st, b, l, u) && Deallocated(st, st', b, l, u, nbs)
    ensures |nbs| == Leftovers(st.arr[b], lw, up, l, u) && Removes(st, b, lw, up, l, u)
  {
    hide LeftoversStay, Deallocated, Appended, WithNewBlocks, FreeAll, Owning, Frees, Unsplittable;
    if FirstSpans(st, st.arr[b], lw, up) {
      ShortcutAgrees(st, b);
      l, u, nbs := 0, 0, [];
    } else {
      l, u := li, ui;
      nbs :| Deallocated(st, st', b, li, ui, nbs) && |nbs| == Leftovers(st.arr[b], lw, up, li, ui);
    }
  }

  ghost predicate Removes(st: Store, b: Block, lw: int, up: int, l: int, u: int)
    requires b in st.arr && ConcreteArr(st.arr[b])
  {
    && 0 <= l < |st.arr[b]| && 0 <= u < |st.arr[b]|
    && if FirstSpans(st, st.arr[b], lw, up) then l == 0 && u == 0
       else IsIndex(st.arr[b], lw, l) && IsIndexUpperIncl(st.arr[b], up, u)
  }

  /** The operation succeeds in st and leads to st'. Its guards are exact: FreeingKeepsExactlyWhen,
      AssigningKeepsExactlyWhen and DeallocKeepsTidyExactlyWhen show that without them the invariant is lost. */
  ghost predicate Step(st: Store, op: Op, st': Store) {
    match op
    case Alloc(nb) => nb !in st.arr && st' == WithNewBlock(st, nb)
    case AllocRange(b, lw, up, o, nb) =>
      b in st.arr && st.arr[b] == [] && Closed(lw) && Closed(up) && RangeAllocated(st, st', b, lw, up, o, nb)
    case ObserveAt(b, offset, constructive, obj) =>
      b in st.arr && ConcreteArr(st.arr[b]) && Closed(offset) && Observed(st, st', b, offset, constructive, obj)
    case DeallocRange(b, lw, up) =>
      && b in st.arr && ConcreteArr(st.arr[b]) && Closed(lw) && Closed(up)
      && RangeDeallocated(st, st', b, Val(lw), Val(up))
    case Dealloc(v) =>
      && v.Ptr? && v.loc.Dynamic? && Live(st, v.loc.block) && Unowned(st, v.loc.block)
      && st' == WithFreed(st, v.loc.block)
    case Assign(o, v) =>
      && o in st.locs && o.range.None? && (forall l :: l in Pointers(v) ==> Assignable(st, l))
      && st' == WithValue(st, o, Pointers(v))
  }

  /** No address disappears and none is handed out again or comes back to life; the memories other than the heap stay
      as they are. */
  ghost predicate Ledger(st: Store, st': Store) {
    && |st.freed| == |st.heap| && |st'.freed| == |st'.heap| && SameMemories(st, st')
    && forall a :: 0 <= a < |st.heap| && st.freed[a] ==> st'.freed[a]
  }

  lemma StepKeepsTidy(st: Store, op: Op, st': Store)
    requires Tidy(st) && Step(st, op, st')
    ensures Tidy(st')
  {
    match op
    case Alloc(nb) => NewBlockKeeps(st, nb);
    case AllocRange(b, lw, up, o, nb) => RangeAllocKeepsTidy(st, st', b, lw, up, o, nb);
    case ObserveAt(b, offset, constructive, obj) => ObservedKeepsTidy(st, st', b, offset, constructive, obj);
    case DeallocRange(b, lw, up) =>
      var li, ui :| InOrder(st, b, Val(lw), Val(up), li, ui) && OutcomeAt(st, st', b, Val(lw), Val(up), li, ui, None);
      DeallocStepKeepsTidy(st, st', b, Val(lw), Val(up), li, ui);
    case Dealloc(v) =>
      FreeingKeepsExactlyWhen(st, v.loc.block);
    case Assign(o, v) =>
      AssigningKeepsExactlyWhen(st, o, Pointers(v));
  }

  lemma DeallocStepKeepsTidy(st: Store, st': Store, b: Block, lw: int, up: int, li: int, ui: int)
    requires Tidy(st) && b in st.arr && InOrder(st, b, lw, up, li, ui) && OutcomeAt(st, st', b, lw, up, li, ui, None)
    ensures Tidy(st')
  {
    var l, u, nbs := OutcomeRemoves(st, st', b, lw, up, li, ui);
    DeallocKeepsTidyExactlyWhen(st, st', b, l, u, nbs);
  }

  lemma ObserveLedger(st: Store, st': Store, b: Block, offset: Expr, constructive: bool, obj: Option<Object>)
    requires Tidy(st) && b in st.arr && Closed(offset) && Observed(st, st', b, offset, constructive, obj)
    ensures Ledger(st, st') && b in st'.arr
    ensures LiveCount(st'.freed) - LiveCount(st.freed) ==
            if Covered(st.arr[b], Val(offset)) then |st'.arr[b]| - |st.arr[b]| else 0
  {
    hide Owns, Exclusive, Disjoint, CanReplace, ReferInTurn, LiveCount, Live, SplitAt;
    var i :| ObservedAt(st, st', b, offset, constructive, obj, i);
    assert i != -1 ==> In(Val(offset), st.arr[b][i]);
    if i != -1 && st.arr[b][i].range.Some? {
      var pieces :| SplitAt(st, st', b, i, Val(offset), obj.value, pieces);
      SplitLedger(st, st', b, i, Val(offset), obj.value, pieces);
    }
  }

  lemma SplitLedger(st: Store, st': Store, b: Block, i: nat, x: int, obj: Object, pieces: seq<Object>)
    requires Tidy(st) && b in st.arr && i < |st.arr[b]| && st.arr[b][i].range.Some?
    requires SplitAt(st, st', b, i, x, obj, pieces)
    ensures Ledger(st, st') && b in st'.arr
    ensures LiveCount(st'.freed) - LiveCount(st.freed) == |st'.arr[b]| - |st.arr[b]|
  {
    hide Owns, Exclusive, Disjoint, CanReplace, ReferInTurn, LiveCount;
  }

  lemma DeallocLedger(st: Store, st': Store, b: Block, li: nat, ui: nat, nbs: seq<Block>)
    requires Owning(st) && IsRun(st, b, li, ui) && li <= ui + 1
    requires Deallocated(st, st', b, li, ui, nbs)
    ensures Ledger(st, st')
    ensures LiveCount(st'.freed) - LiveCount(st.freed) == |st'.arr[b]| - |st.arr[b]| + |nbs|
  {
    NewBlocksFrames(st, nbs);
    DeallocCounts(st, st', b, li, ui, nbs);
  }

  /** How the number of live blocks changes: an allocation adds one; an observation adds one for each piece
      more than before; a deallocation on object boundaries removes one for each object removed; one through a
      pointer removes one; an assignment changes nothing. */
  ghost predicate Balanced(st: Store, op: Op, st': Store) {
    var d := LiveCount(st'.freed) - LiveCount(st.freed);
    match op
    case Alloc(_) => d == 1
    case AllocRange(_, _, _, _, _) => d == 1
    case ObserveAt(b, offset, _, _) =>
      && b in st.arr && b in st'.arr && ConcreteArr(st.arr[b]) && Closed(offset)
      && d == if Covered(st.arr[b], Val(offset)) then |st'.arr[b]| - |st.arr[b]| else 0
    case DeallocRange(b, lw, up) =>
      && b in st.arr && b in st'.arr && ConcreteArr(st.arr[b]) && Closed(lw) && Closed(up)
      && exists li, ui :: RunBalanced(st, st', b, Val(lw), Val(up), li, ui)
    case Dealloc(_) => d == -1
    case Assign(_, _) => d == 0
  }

  ghost predicate RunBalanced(st: Store, st': Store, b: Block, lw: int, up: int, li: int, ui: int)
    requires b in st.arr && b in st'.arr && ConcreteArr(st.arr[b])
  {
    && Removes(st, b, lw, up, li, ui)
    && LiveCount(st'.freed) - LiveCount(st.freed) ==
       |st'.arr[b]| - |st.arr[b]| + Leftovers(st.arr[b], lw, up, li, ui)
  }

  lemma DeallocStepBalances(st: Store, st': Store, b: Block, lw: int, up: int, li: int, ui: int)
    requires Owning(st) && b in st.arr && ConcreteArr(st.arr[b])
    requires InOrder(st, b, lw, up, li, ui) && OutcomeAt(st, st', b, lw, up, li, ui, None)
    ensures Ledger(st, st') && b in st'.arr && exists l, u :: RunBalanced(st, st', b, lw, up, l, u)
  {
    var l, u, nbs := OutcomeRemoves(st, st', b, lw, up, li, ui);
    DeallocLedger(st, st', b, l, u, nbs);
    assert RunBalanced(st, st', b, lw, up, l, u);
  }

  lemma StepBalances(st: Store, op: Op, st': Store)
    requires Tidy(st) && Step(st, op, st')
    ensures Ledger(st, st') && Balanced(st, op, st')
  {
    match op
    case Alloc(nb) => LiveCountNew(st.freed);
    case AllocRange(b, lw, up, o, nb) => LiveCountNew(st.freed);
    case ObserveAt(b, offset, constructive, obj) => ObserveLedger(st, st', b, offset, constructive, obj);
    case DeallocRange(b, lw, up) =>
      var li, ui :| InOrder(st, b, Val(lw), Val(up), li, ui) && OutcomeAt(st, st', b, Val(lw), Val(up), li, ui, None);
      DeallocStepBalances(st, st', b, Val(lw), Val(up), li, ui);
    case Dealloc(v) => LiveCountFreed(st.freed, v.loc.block);
    case Assign(_, _) =>
  }

  // ---- runs ----

  ghost predicate Run(trace: seq<Store>, ops: seq<Op>) {
    && |trace| == |ops| + 1 && Tidy(trace[0])
    && forall k :: 0 <= k < |ops| ==> StepAt(trace, ops, k)
  }

  ghost predicate StepAt(trace: seq<Store>, ops: seq<Op>, k: int) {
    0 <= k < |ops| && k + 1 < |trace| && Step(trace[k], ops[k], trace[k + 1])
  }

  lemma LedgerStays(st: Store)
    requires Tidy(st)
    ensures Ledger(st, st)
  {
  }

  lemma LedgerThrough(st: Store, st': Store, st'': Store)
    requires Ledger(st, st') && Ledger(st', st'')
    ensures Ledger(st, st'')
  {
  }

  /** At every point of every run the blocks are tidy: in particular every range owns a live heap block that no
      other object points to; and no address is reissued or revived. */
  lemma {:induction false} RunsStayTidy(trace: seq<Store>, ops: seq<Op>, i: nat, j: nat)
    requires Run(trace, ops) && i <= j < |trace|
    ensures Tidy(trace[j]) && Ledger(trace[i], trace[j])
    decreases j
  {
    hide Tidy, Ledger, Step, Balanced;
    if j > 0 {
      RunsStayTidy(trace, ops, if i < j then i else 0, j - 1);
      assert StepAt(trace, ops, j - 1);
      StepKeepsTidy(trace[j - 1], ops[j - 1], trace[j]);
      StepBalances(trace[j - 1], ops[j - 1], trace[j]);
      LedgerThrough(trace[if i < j then i else 0], trace[j - 1], trace[j]);
    }
    LedgerStays(trace[j]);
  }

  ghost predicate FreedBy(trace: seq<Store>, k: nat, a: nat) {
    k + 1 < |trace| && Live(trace[k], a) && !Live(trace[k + 1], a)
  }

  lemma FreedStaysFreed(trace: seq<Store>, ops: seq<Op>, i: nat, j: nat, a: nat)
    requires Run(trace, ops) && FreedBy(trace, i, a) && i < j < |trace|
    ensures !Live(trace[j], a)
  {
    RunsStayTidy(trace, ops, i, i + 1);
    RunsStayTidy(trace, ops, i + 1, j);
  }

  /** No address is freed by two steps of a run. */
  lemma FreedAtMostOnce(trace: seq<Store>, ops: seq<Op>, i: nat, j: nat, a: nat)
    requires Run(trace, ops) && FreedBy(trace, i, a) && FreedBy(trace, j, a)
    ensures i == j
  {
    if i < j {
      FreedStaysFreed(trace, ops, i, j, a);
    } else if j < i {
      FreedStaysFreed(trace, ops, j, i, a);
    }
  }
}
