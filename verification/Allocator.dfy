/** The virtual-range allocator (src/state/block.c): observing an offset materialises it, splitting a range
    into up to three pieces; ranges of cells are allocated and deallocated as wholes. */
module Allocator {
  import opened Util
  import opened Ast
  import opened ExprMath
  import opened Memory
  import opened Ownership
  import opened Tiles

  /** What the observation and range operations keep: in every block the objects have variable-free,
      pairwise disjoint offsets, and every range owns its heap block. */
  ghost predicate Tidy(st: Store) {
    && Owning(st)
    && forall b :: b in st.arr ==> ConcreteArr(st.arr[b]) && Disjoint(st.arr[b])
  }

  ghost predicate Ready(s: State, b: Block)
    reads s, s.Repr
  {
    s.Valid() && b in s.blocks && Tidy(s.Snapshot())
  }

  /** The piece of an object below `up`: nothing when it is empty, a value when it is the whole object. */
  ghost predicate IsUpto(piece: Option<Object>, whole: Object, up: Expr, addr: nat)
    requires Concrete(whole) && Closed(up)
  {
    if Lo(whole) == Val(up) then piece == None
    else
      && piece.Some? && piece.value.offset == whole.offset
      && piece.value.range == if Hi(whole) == Val(up) then None
                              else Some(Range(Binary(up, Subtraction, whole.offset), Dynamic(addr, Constant(0))))
  }

  ghost predicate IsFrom(piece: Option<Object>, whole: Object, lw: Expr, addr: nat)
    requires Concrete(whole) && Closed(lw)
  {
    if Val(lw) >= Hi(whole) then piece == None
    else
      && piece.Some? && piece.value.offset == lw
      && piece.value.range == if Lo(whole) == Val(lw) then None
                              else Some(Range(Binary(Upper(whole), Subtraction, lw), Dynamic(addr, Constant(0))))
  }

  /** A range needs a heap block, a copied value does not. */
  function Cost(piece: Option<Object>): nat {
    if piece.Some? && piece.value.range.Some? then 1 else 0
  }

  function Present(o: Option<Object>): seq<Object> {
    if o.Some? then [o.value] else []
  }

  /** nbs are blocks of the state that were not there before. */
  ghost predicate Added(before: set<Block>, after: set<Block>, nbs: seq<Block>) {
    && before <= after && Distinct(nbs)
    && forall i :: 0 <= i < |nbs| ==> nbs[i] !in before && nbs[i] in after
  }

  lemma AddedJoin(before: set<Block>, mid: set<Block>, after: set<Block>, a: seq<Block>, b: seq<Block>)
    requires Added(before, mid, a) && Added(mid, after, b)
    ensures Added(before, after, a + b)
  {
  }

  /** A range with a heap block of its own. */
  method NewRange(offset: Expr, size: Expr, s: State) returns (r: Object, ghost b: Block)
    requires s.Valid()
    modifies s, s.heap
    ensures s.Valid() && s.heap == old(s.heap) && fresh(s.Repr - old(s.Repr)) && old(s.Repr) <= s.Repr
    ensures Added(old(s.blocks), s.blocks, [b]) && s.objects == old(s.objects)
    ensures s.Snapshot() == WithNewBlocks(old(s.Snapshot()), [b])
    ensures fresh(r) && r !in s.Repr && r.offset == offset
    ensures r.range == Some(Range(size, Dynamic(|old(s.heap.blocks)|, Constant(0))))
  {
    var v;
    v, b := s.Alloc();
    r := new Object.Virtual(offset, Range(size, v.loc));
    assert [b][..0] == [];
  }

  /** object_upto; its assertions demand that the object does not start above the bound, and that it is a value
      when it ends there. */
  method ObjectUpto(o: Object, exclUp: Expr, s: State) returns (piece: Option<Object>, ghost nbs: seq<Block>)
    requires s.Valid() && Concrete(o) && Closed(exclUp) && Lo(o) <= Val(exclUp)
    requires Lo(o) != Val(exclUp) == Hi(o) ==> o.range.None? && o.value.Some?
    modifies s, s.heap
    ensures s.Valid() && s.heap == old(s.heap) && fresh(s.Repr - old(s.Repr)) && old(s.Repr) <= s.Repr
    ensures Added(old(s.blocks), s.blocks, nbs) && s.objects == old(s.objects)
    ensures IsUpto(piece, o, exclUp, |old(s.heap.blocks)|) && |nbs| == Cost(piece)
    ensures piece.Some? ==> fresh(piece.value) && piece.value !in s.Repr
    ensures piece.Some? && piece.value.range.None? ==> piece.value.value == o.value
    ensures s.Snapshot() == WithNewBlocks(old(s.Snapshot()), nbs)
  {
    var e0 := Compare(o.offset, Le, exclUp);
    var e1 := Compare(o.offset, Eq, exclUp);
    var e2 := Compare(Upper(o), Eq, exclUp);
    assert e0;
    if e1 {
      return None, [];
    }
    if e2 {
      var copy := new Object.Value(o.offset, o.value);
      return Some(copy), [];
    }
    var r, b := NewRange(o.offset, Binary(exclUp, Subtraction, o.offset), s);
    return Some(r), [b];
  }

  /** object_from; its assertion demands a value when the object starts at the bound. */
  method ObjectFrom(o: Object, inclLw: Expr, s: State) returns (piece: Option<Object>, ghost nbs: seq<Block>)
    requires s.Valid() && Concrete(o) && Closed(inclLw)
    requires Lo(o) == Val(inclLw) < Hi(o) ==> o.range.None? && o.value.Some?
    modifies s, s.heap
    ensures s.Valid() && s.heap == old(s.heap) && fresh(s.Repr - old(s.Repr)) && old(s.Repr) <= s.Repr
    ensures Added(old(s.blocks), s.blocks, nbs) && s.objects == old(s.objects)
    ensures IsFrom(piece, o, inclLw, |old(s.heap.blocks)|) && |nbs| == Cost(piece)
    ensures piece.Some? ==> fresh(piece.value) && piece.value !in s.Repr
    ensures piece.Some? && piece.value.range.None? ==> piece.value.value == o.value
    ensures s.Snapshot() == WithNewBlocks(old(s.Snapshot()), nbs)
  {
    hide State.Valid;
    var e0 := Compare(inclLw, Ge, Upper(o));
    var e1 := Compare(inclLw, Eq, o.offset);
    if e0 {
      return None, [];
    }
    if e1 {
      var copy := new Object.Value(inclLw, o.value);
      return Some(copy), [];
    }
    var r, b := NewRange(inclLw, Binary(Upper(o), Subtraction, inclLw), s);
    return Some(r), [b];
  }

  // ---- splitting ----

  /** The pieces in order of offset: what lies below, the observed cell, what lies above. */
  function Pieces(upto: Option<Object>, observed: Object, from: Option<Object>): seq<Object> {
    Present(upto) + [observed] + Present(from)
  }

  /** The pieces tile the whole and exactly the one at x is a value, of one cell. */
  ghost predicate SplitOf(pieces: seq<Object>, whole: Object, x: int)
    requires Concrete(whole)
  {
    && ConcreteArr(pieces) && Tiling(pieces, Lo(whole), Hi(whole)) && |pieces| <= 3
    && (forall k :: 0 <= k < |pieces| ==> (pieces[k].range.None? <==> Lo(pieces[k]) == x))
    && forall k :: 0 <= k < |pieces| && pieces[k].range.None? ==> Hi(pieces[k]) == x + 1
  }

  /** The objects refer to consecutive blocks, one each. */
  ghost predicate ReferInTurn(pieces: seq<Object>, locs: map<Object, seq<Location>>, first: nat) {
    forall k :: 0 <= k < |pieces| ==> pieces[k] in locs && locs[pieces[k]] == BlockRef(first + k)
  }

  lemma UptoBounds(piece: Option<Object>, whole: Object, up: Expr, addr: nat)
    requires Concrete(whole) && Closed(up) && Lo(whole) <= Val(up) && IsUpto(piece, whole, up, addr)
    requires Lo(whole) != Val(up) == Hi(whole) ==> whole.range.None?
    ensures piece.Some? <==> Lo(whole) < Val(up)
    ensures piece.Some? ==> Concrete(piece.value) && Lo(piece.value) == Lo(whole) && Hi(piece.value) == Val(up)
  {
  }

  lemma FromBounds(piece: Option<Object>, whole: Object, lw: Expr, addr: nat)
    requires Concrete(whole) && Closed(lw) && IsFrom(piece, whole, lw, addr)
    requires Lo(whole) == Val(lw) < Hi(whole) ==> whole.range.None?
    ensures piece.Some? <==> Val(lw) < Hi(whole)
    ensures piece.Some? ==> Concrete(piece.value) && Lo(piece.value) == Val(lw) && Hi(piece.value) == Hi(whole)
  {
    if piece.Some? {
      ValOfSum(Upper(whole), lw);
      ValOfSum(lw, Size(piece.value));
    }
  }

  lemma CellBounds(o: Object)
    requires Closed(o.offset) && o.range == None
    ensures Concrete(o) && Lo(o) == Val(o.offset) && Hi(o) == Val(o.offset) + 1
  {
    ValOfSum(o.offset, Constant(1));
  }

  lemma SplitIsTiling(upto: Option<Object>, observed: Object, from: Option<Object>, whole: Object, offset: Expr, n: nat)
    requires Concrete(whole) && Closed(offset) && In(Val(offset), whole)
    requires PiecesOf(upto, observed, from, whole, offset, n)
    ensures var pieces := Pieces(upto, observed, from);
            && SplitOf(pieces, whole, Val(offset)) && pieces[|Present(upto)|] == observed
  {
    UptoBounds(upto, whole, offset, n);
    CellBounds(observed);
    FromBounds(from, whole, Binary(offset, Addition, Constant(1)), n + |Present(upto)| + 1);
    ValOfSum(offset, Constant(1));
    PiecesAreSplit(upto, observed, from, whole, Val(offset));
  }

  lemma PiecesAreSplit(upto: Option<Object>, observed: Object, from: Option<Object>, whole: Object, x: int)
    requires Concrete(whole) && In(x, whole)
    requires Concrete(observed) && observed.range.None? && Lo(observed) == x && Hi(observed) == x + 1
    requires upto.Some? <==> Lo(whole) < x
    requires upto.Some? ==> Concrete(upto.value) && upto.value.range.Some?
    requires upto.Some? ==> Lo(upto.value) == Lo(whole) && Hi(upto.value) == x
    requires from.Some? <==> x + 1 < Hi(whole)
    requires from.Some? ==> Concrete(from.value) && from.value.range.Some?
    requires from.Some? ==> Lo(from.value) == x + 1 && Hi(from.value) == Hi(whole)
    ensures var pieces := Pieces(upto, observed, from);
            SplitOf(pieces, whole, x) && pieces[|Present(upto)|] == observed
  {
    hide Lo, Hi, Concrete;
    var pieces := Pieces(upto, observed, from);
    if upto.Some? {
      assert pieces[0] == upto.value && pieces[1] == observed;
    }
    if from.Some? {
      assert pieces[|pieces| - 1] == from.value && pieces[|pieces| - 2] == observed;
    }
    assert forall k :: 0 <= k < |pieces| ==>
      pieces[k] == observed || upto == Some(pieces[k]) || from == Some(pieces[k]);
  }

  /** The object is a cell that holds a pointer. */
  predicate IsPointer(o: Object)
    reads o
  {
    o.range.None? && o.value.Some? && o.value.value.Ptr?
  }

  method AllocCell(offset: Expr, s: State) returns (o: Object, ghost b: Block)
    requires s.Valid()
    modifies s, s.heap
    ensures s.Valid() && s.heap == old(s.heap) && fresh(s.Repr - old(s.Repr)) && old(s.Repr) <= s.Repr
    ensures Added(old(s.blocks), s.blocks, [b]) && s.objects == old(s.objects)
    ensures s.Snapshot() == WithNewBlocks(old(s.Snapshot()), [b])
    ensures fresh(o) && o !in s.Repr && o.offset == offset && o.range == None
    ensures o.value == Some(Ptr(Dynamic(|old(s.heap.blocks)|, Constant(0))))
  {
    var v;
    v, b := s.Alloc();
    o := new Object.Value(offset, Some(v));
    assert [b][..0] == [];
  }

  /** The pieces of the range `whole` around the observed cell, referring to the blocks from n on. */
  ghost predicate PiecesOf(upto: Option<Object>, observed: Object, from: Option<Object>, whole: Object,
                           offset: Expr, n: nat)
    requires Concrete(whole) && Closed(offset)
  {
    && observed.offset == offset && observed.range == None
    && IsUpto(upto, whole, offset, n)
    && IsFrom(from, whole, Binary(offset, Addition, Constant(1)), n + |Present(upto)| + 1)
  }

  /** The pieces are different objects, none of them known. */
  ghost predicate AllNew(upto: Option<Object>, observed: Object, from: Option<Object>, known: set<Object>) {
    && observed !in known
    && (upto.Some? ==> upto.value !in known && upto.value != observed)
    && (from.Some? ==> from.value !in known && from.value != observed && from != upto)
  }

  ghost function Single(o: Option<Object>): set<Object> {
    if o.Some? then {o.value} else {}
  }

  ghost predicate ReferFrom(upto: Option<Object>, observed: Object, from: Option<Object>, first: nat)
    reads Single(upto) + {observed} + Single(from)
  {
    && observed.Locs() == BlockRef(first + |Present(upto)|)
    && (upto.Some? ==> upto.value.Locs() == BlockRef(first))
    && (from.Some? ==> from.value.Locs() == BlockRef(first + |Present(upto)| + 1))
  }

  method MakeLower(whole: Object, offset: Expr, s: State)
    returns (upto: Option<Object>, observed: Object, ghost nbs: seq<Block>)
    requires s.Valid() && Concrete(whole) && Closed(offset) && In(Val(offset), whole) && whole.range.Some?
    modifies s, s.heap
    ensures s.Valid() && s.heap == old(s.heap) && fresh(s.Repr - old(s.Repr)) && old(s.Repr) <= s.Repr
    ensures Added(old(s.blocks), s.blocks, nbs) && s.objects == old(s.objects)
    ensures s.Snapshot() == WithNewBlocks(old(s.Snapshot()), nbs) && |nbs| == |Present(upto)| + 1
    ensures IsUpto(upto, whole, offset, |old(s.heap.blocks)|)
    ensures upto.Some? ==> fresh(upto.value) && upto.value !in s.Repr && upto.value != observed
    ensures fresh(observed) && observed !in s.Repr && observed.offset == offset && observed.range == None
    ensures upto.Some? ==> upto.value.Locs() == BlockRef(|old(s.heap.blocks)|)
    ensures IsPointer(observed) && observed.Locs() == BlockRef(|old(s.heap.blocks)| + |Present(upto)|)
  {
    ghost var n1, b;
    upto, n1 := ObjectUpto(whole, offset, s);
    ghost var blocks1 := s.blocks;
    observed, b := AllocCell(offset, s);
    nbs := n1 + [b];
    AddedJoin(old(s.blocks), blocks1, s.blocks, n1, [b]);
    NewBlocksJoin(old(s.Snapshot()), n1, [b]);
  }

  /** The three allocations of block_observe, in offset order so that the pieces are sequential in the heap. */
  method MakePieces(whole: Object, offset: Expr, s: State)
    returns (upto: Option<Object>, observed: Object, from: Option<Object>, ghost nbs: seq<Block>)
    requires s.Valid() && Concrete(whole) && Closed(offset) && In(Val(offset), whole) && whole.range.Some?
    modifies s, s.heap
    ensures s.Valid() && s.heap == old(s.heap) && fresh(s.Repr - old(s.Repr)) && old(s.Repr) <= s.Repr
    ensures Added(old(s.blocks), s.blocks, nbs) && s.objects == old(s.objects)
    ensures s.Snapshot() == WithNewBlocks(old(s.Snapshot()), nbs)
    ensures |nbs| == |Present(upto)| + 1 + |Present(from)|
    ensures PiecesOf(upto, observed, from, whole, offset, |old(s.heap.blocks)|)
    ensures AllNew(upto, observed, from, s.objects) && ReferFrom(upto, observed, from, |old(s.heap.blocks)|)
    ensures IsPointer(observed) && fresh(Single(upto) + {observed} + Single(from))
  {
    ghost var n1, n2;
    upto, observed, n1 := MakeLower(whole, offset, s);
    ghost var blocks1 := s.blocks;
    ValOfSum(offset, Constant(1));
    hide State.Snapshot, Added;
    from, n2 := ObjectFrom(whole, Binary(offset, Addition, Constant(1)), s);
    nbs := n1 + n2;
    AddedJoin(old(s.blocks), blocks1, s.blocks, n1, n2);
    NewBlocksJoin(old(s.Snapshot()), n1, n2);
  }

  lemma {:induction false} NewBlocksJoin(st: Store, a: seq<Block>, b: seq<Block>)
    ensures WithNewBlocks(WithNewBlocks(st, a), b) == WithNewBlocks(st, a + b)
  {
    if b == [] {
      assert a + b == a;
    } else {
      var n := |b| - 1;
      NewBlocksJoin(st, a, b[..n]);
      assert (a + b)[..|a + b| - 1] == a + b[..n];
    }
  }

  /** The object at i is a range whose block is live, and in one place only: it can be dropped. */
  ghost predicate Droppable(st: Store, b: Block, i: nat) {
    && b in st.arr && i < |st.arr[b]| && st.arr[b][i].range.Some? && Exclusive(st.arr)
    && st.arr[b][i].range.value.loc.Dynamic? && Live(st, st.arr[b][i].range.value.loc.block)
  }

  lemma OwningIsDroppable(st: Store, b: Block, i: nat)
    requires Owning(st) && b in st.arr && i < |st.arr[b]| && st.arr[b][i].range.Some?
    ensures Droppable(st, b, i)
  {
  }

  lemma NewBlocksDroppable(st: Store, nbs: seq<Block>, b: Block, i: nat)
    requires Owning(st) && Distinct(nbs) && forall k :: 0 <= k < |nbs| ==> nbs[k] !in st.arr
    requires b in st.arr && i < |st.arr[b]| && st.arr[b][i].range.Some?
    ensures Droppable(WithNewBlocks(st, nbs), b, i) && WithNewBlocks(st, nbs).arr[b] == st.arr[b]
  {
  }

  /** The store after block_observe has exchanged a range for its pieces. */
  ghost function Exchanged(st: Store, b: Block, i: nat, objs: seq<Object>, first: nat): Store
    requires Droppable(st, b, i)
  {
    WithObjects(WithoutObject(WithFreed(st, st.arr[b][i].range.value.loc.block), b, i), b, i, objs, first)
  }

  /** object_dealloc of a range and its removal from the array; the assert of block_observe holds. */
  method DropRange(b: Block, index: nat, s: State, ghost st: Store)
    requires s.Valid() && b in s.blocks && st == s.Snapshot() && Droppable(st, b, index)
    modifies s, s.heap, b
    ensures s.Valid() && s.heap == old(s.heap) && s.Repr == old(s.Repr)
    ensures s.blocks == old(s.blocks) && s.objects == old(s.objects) - {st.arr[b][index]} && index <= |b.arr|
    ensures s.Snapshot() == WithoutObject(WithFreed(st, st.arr[b][index].range.value.loc.block), b, index)
  {
    assert st.arr[b] == b.arr;
    var ok := s.Free(b.arr[index].range.value.loc.block);
    assert ok;
    s.RemoveObject(b, index);
    assert s.Snapshot().arr[b] == b.arr;
  }

  /** Inserts a piece, if there is one, after the pieces already put in. */
  method InsertPiece(b: Block, index: nat, piece: Option<Object>, s: State, ghost base: Store, ghost at: nat,
                     ghost done: seq<Object>, ghost first: nat)
    returns (next: nat)
    requires s.Valid() && b in s.blocks && b in base.arr && at <= |base.arr[b]| && index == at + |done|
    requires s.Snapshot() == WithObjects(base, b, at, done, first)
    requires piece.Some? ==> piece.value !in s.objects && piece.value.Locs() == BlockRef(first + |done|)
    modifies s, b
    ensures s.Valid() && s.heap == old(s.heap) && next == index + |Present(piece)|
    ensures s.blocks == old(s.blocks) && s.objects == old(s.objects) + Single(piece)
    ensures s.Repr == old(s.Repr) + Single(piece)
    ensures s.Snapshot() == WithObjects(base, b, at, done + Present(piece), first)
  {
    if piece.Some? {
      assert b.arr == s.Snapshot().arr[b];
      s.InsertObject(b, index, piece.value);
      WithObjectsSnoc(base, b, at, done, first, piece.value);
      return index + 1;
    }
    assert done + [] == done;
    return index;
  }

  lemma UnionAssociates<T>(s: set<T>, a: set<T>, b: set<T>, c: set<T>)
    ensures s + a + b + c == s + (a + b + c)
  {
  }

  method InsertLower(b: Block, index: nat, upto: Option<Object>, observed: Object, s: State, ghost first: nat)
    returns (next: nat)
    requires s.Valid() && b in s.blocks && index <= |b.arr|
    requires observed !in s.objects && observed.Locs() == BlockRef(first + |Present(upto)|)
    requires upto.Some? ==> upto.value !in s.objects && upto.value != observed && upto.value.Locs() == BlockRef(first)
    modifies s, b
    ensures s.Valid() && s.heap == old(s.heap) && s.blocks == old(s.blocks) && next == index + |Present(upto)| + 1
    ensures s.objects == old(s.objects) + Single(upto) + {observed}
    ensures s.Repr == old(s.Repr) + Single(upto) + {observed}
    ensures s.Snapshot() == WithObjects(old(s.Snapshot()), b, index, Present(upto) + [observed], first)
  {
    ghost var base := s.Snapshot();
    assert base.arr[b] == b.arr;
    var i := InsertPiece(b, index, upto, s, base, index, [], first);
    assert [] + Present(upto) == Present(upto);
    next := InsertPiece(b, i, Some(observed), s, base, index, Present(upto), first);
  }

  method InsertPieces(b: Block, index: nat, upto: Option<Object>, observed: Object, from: Option<Object>,
                      s: State, ghost first: nat)
    requires s.Valid() && b in s.blocks && index <= |b.arr|
    requires AllNew(upto, observed, from, s.objects) && ReferFrom(upto, observed, from, first)
    modifies s, b
    ensures s.Valid() && s.heap == old(s.heap) && s.blocks == old(s.blocks)
    ensures s.Repr == old(s.Repr) + Single(upto) + {observed} + Single(from)
    ensures s.Snapshot() == WithObjects(old(s.Snapshot()), b, index, Pieces(upto, observed, from), first)
  {
    ghost var base := s.Snapshot();
    assert base.arr[b] == b.arr;
    var i := InsertLower(b, index, upto, observed, s, first);
    i := InsertPiece(b, i, from, s, base, index, Present(upto) + [observed], first);
  }

  // ---- what observing does ----

  /** The block at loc was live and is freed, n new live blocks are added at the end, and the others stay as
      they were. */
  ghost predicate BlockChanged(st: Store, st': Store, loc: Location, n: nat) {
    && loc.Dynamic? && Live(st, loc.block) && !Live(st', loc.block)
    && |st'.heap| == |st.heap| + n && |st'.freed| == |st.freed| + n
    && (forall a :: 0 <= a < |st.freed| && a != loc.block ==> st'.freed[a] == st.freed[a])
    && (forall a :: |st.freed| <= a < |st'.freed| ==> !st'.freed[a])
    && LiveCount(st'.freed) == LiveCount(st.freed) + n - 1
  }

  /** The range at i gives way to pieces over the same offsets, one of them the observed cell; its block
      is freed, each piece gets a new one, and nothing else changes. */
  ghost predicate SplitAt(st: Store, st': Store, b: Block, i: nat, x: int, obj: Object, older pieces: seq<Object>)
    requires b in st.arr && i < |st.arr[b]| && Concrete(st.arr[b][i]) && st.arr[b][i].range.Some?
  {
    var whole := st.arr[b][i];
    var n := |st.heap|;
    && CanReplace(pieces, whole, x, n, st.locs.Keys) && ReferInTurn(pieces, st'.locs, n)
    && obj in pieces && obj.range.None?
    && Respliced(st, st', b, i, pieces)
    && BlockChanged(st, st', whole.range.value.loc, |pieces|) && SameMemories(st, st')
    && st'.locs.Keys == (st.locs.Keys - {whole}) + Elements(pieces)
    && forall o :: o in st.locs && o != whole ==> st'.locs[o] == st.locs[o]
  }

  /** The pieces are in the place of the i-th object of b, and new blocks are empty. */
  ghost predicate Respliced(st: Store, st': Store, b: Block, i: nat, pieces: seq<Object>)
    requires b in st.arr && i < |st.arr[b]|
  {
    && b in st'.arr && st'.arr[b] == Spliced(st.arr[b], i, pieces)
    && (forall c :: c in st.arr && c != b ==> c in st'.arr && st'.arr[c] == st.arr[c])
    && forall c :: c in st'.arr && c !in st.arr ==> st'.arr[c] == []
  }

  /** What observing does when i is the index of the offset (-1: no object holds it). */
  ghost predicate ObservedAt(st: Store, st': Store, b: Block, offset: Expr, constructive: bool,
                             obj: Option<Object>, i: int)
    requires b in st.arr && ConcreteArr(st.arr[b]) && Closed(offset)
  {
    var arr := st.arr[b];
    && IsIndex(arr, Val(offset), i)
    && if i == -1 then
         if !constructive then obj == None && st' == st
         else obj.Some? && Missed(st, st', b, offset, obj.value)
       else
         && obj.Some?
         && if arr[i].range.None? then obj.value == arr[i] && st' == st
            else exists pieces :: SplitAt(st, st', b, i, Val(offset), obj.value, pieces)
  }

  /** A constructive miss: an uninitialised cell at the end of the array, and nothing else. */
  ghost predicate Missed(st: Store, st': Store, b: Block, offset: Expr, obj: Object)
    requires b in st.arr
  {
    && obj !in st.locs && obj.offset == offset && obj.range.None?
    && st' == WithObject(st, b, |st.arr[b]|, obj, [])
  }

  ghost predicate Observed(st: Store, st': Store, b: Block, offset: Expr, constructive: bool, obj: Option<Object>)
    requires b in st.arr && ConcreteArr(st.arr[b]) && Closed(offset)
  {
    exists i :: ObservedAt(st, st', b, offset, constructive, obj, i)
  }

  /** Objects that can take the place of a range. */
  ghost predicate CanReplace(pieces: seq<Object>, whole: Object, x: int, n: nat, known: set<Object>)
    requires Concrete(whole)
  {
    && SplitOf(pieces, whole, x) && Distinct(pieces)
    && forall k :: 0 <= k < |pieces| ==> pieces[k] !in known && RefersTo(pieces[k], n + k)
  }

  /** What exchanging a range for new objects does to the store. */
  lemma ExchangedStore(st: Store, b: Block, i: nat, objs: seq<Object>, first: nat)
    requires Droppable(st, b, i) && st.arr[b][i] in st.locs
    requires Distinct(objs) && forall k :: 0 <= k < |objs| ==> objs[k] !in st.locs
    ensures var st', whole := Exchanged(st, b, i, objs, first), st.arr[b][i];
            && st'.heap == st.heap && SameMemories(st, st')
            && st'.freed == st.freed[whole.range.value.loc.block := true]
            && st'.arr == st.arr[b := Spliced(st.arr[b], i, objs)]
            && ReferInTurn(objs, st'.locs, first)
            && st'.locs.Keys == (st.locs.Keys - {whole}) + Elements(objs)
            && forall o :: o in st.locs && o != whole ==> st'.locs[o] == st.locs[o]
  {
    var whole, arr := st.arr[b][i], st.arr[b];
    var st1 := WithoutObject(WithFreed(st, whole.range.value.loc.block), b, i);
    WithObjectsArr(st1, b, i, objs, first);
    WithObjectsLocs(st1, b, i, objs, first);
    WithObjectsKeys(st1, b, i, objs, first);
    assert st1.locs.Keys == st.locs.Keys - {whole};
    var rest := arr[..i] + arr[i + 1..];
    assert rest[..i] == arr[..i] && rest[i..] == arr[i + 1..];
  }

  lemma ExchangeChangesBlock(st: Store, st1: Store, st': Store, whole: Object, n: nat)
    requires Owning(st) && Extended(st, st1, n) && whole in st.locs && whole.range.Some? && Owns(st, whole)
    requires st'.heap == st1.heap && st'.freed == st1.freed[whole.range.value.loc.block := true]
    ensures BlockChanged(st, st', whole.range.value.loc, n)
  {
    LiveCountFreed(st1.freed, whole.range.value.loc.block);
    forall a | |st.freed| <= a < |st'.freed|
      ensures !st'.freed[a]
    {
      assert Unused(st1, a);
    }
  }

  /** After the pieces have their blocks, exchanging the range for them is a split. */
  lemma ExchangeSplits(st: Store, st1: Store, b: Block, i: nat, x: int, obj: Object, pieces: seq<Object>)
    requires Tidy(st) && b in st.arr && i < |st.arr[b]| && st.arr[b][i].range.Some?
    requires Owning(st1) && Droppable(st1, b, i) && Extended(st, st1, |pieces|)
    requires CanReplace(pieces, st.arr[b][i], x, |st.heap|, st.locs.Keys) && obj in pieces && obj.range.None?
    ensures SplitAt(st, Exchanged(st1, b, i, pieces, |st.heap|), b, i, x, obj, pieces)
  {
    var st', whole := Exchanged(st1, b, i, pieces, |st.heap|), st.arr[b][i];
    assert Owns(st, whole) && whole in st.locs && st1.arr[b] == st.arr[b];
    ExchangedStore(st1, b, i, pieces, |st.heap|);
    ExchangeChangesBlock(st, st1, st', whole, |pieces|);
    ExchangeResplices(st, st1, st', b, i, pieces);
    hide Respliced, BlockChanged, ReferInTurn, CanReplace;
  }

  lemma ExchangeResplices(st: Store, st1: Store, st': Store, b: Block, i: nat, pieces: seq<Object>)
    requires b in st.arr && i < |st.arr[b]| && Extended(st, st1, |pieces|)
    requires st'.arr == st1.arr[b := Spliced(st1.arr[b], i, pieces)]
    ensures Respliced(st, st', b, i, pieces)
  {
  }

  lemma NewPiecesCanReplace(upto: Option<Object>, observed: Object, from: Option<Object>, whole: Object,
                            offset: Expr, n: nat, known: set<Object>)
    requires Concrete(whole) && Closed(offset) && In(Val(offset), whole)
    requires PiecesOf(upto, observed, from, whole, offset, n) && AllNew(upto, observed, from, known)
    ensures CanReplace(Pieces(upto, observed, from), whole, Val(offset), n, known)
    ensures observed in Pieces(upto, observed, from)
  {
    SplitIsTiling(upto, observed, from, whole, offset, n);
    assert Pieces(upto, observed, from)[|Present(upto)|] == observed;
  }

  lemma ExchangeObserves(st: Store, nbs: seq<Block>, b: Block, i: nat, x: int, obj: Object, pieces: seq<Object>)
    requires Tidy(st) && b in st.arr && i < |st.arr[b]| && st.arr[b][i].range.Some?
    requires |nbs| == |pieces| && Distinct(nbs) && forall k :: 0 <= k < |nbs| ==> nbs[k] !in st.arr
    requires CanReplace(pieces, st.arr[b][i], x, |st.heap|, st.locs.Keys) && obj in pieces && obj.range.None?
    ensures var st1 := WithNewBlocks(st, nbs);
            && Droppable(st1, b, i)
            && Tidy(Exchanged(st1, b, i, pieces, |st.heap|))
            && SplitAt(st, Exchanged(st1, b, i, pieces, |st.heap|), b, i, x, obj, pieces)
  {
    NewBlocksKeep(st, nbs);
    OwningIsDroppable(WithNewBlocks(st, nbs), b, i);
    ExchangeSplits(st, WithNewBlocks(st, nbs), b, i, x, obj, pieces);
    SplitKeepsTidy(st, Exchanged(WithNewBlocks(st, nbs), b, i, pieces, |st.heap|), b, i, x, obj, pieces);
  }

  lemma NewPiecesObserve(st: Store, nbs: seq<Block>, b: Block, i: nat, offset: Expr,
                         upto: Option<Object>, observed: Object, from: Option<Object>)
    requires Tidy(st) && b in st.arr && i < |st.arr[b]| && st.arr[b][i].range.Some?
    requires Closed(offset) && In(Val(offset), st.arr[b][i])
    requires |nbs| == |Pieces(upto, observed, from)| && Distinct(nbs)
    requires forall k :: 0 <= k < |nbs| ==> nbs[k] !in st.arr
    requires PiecesOf(upto, observed, from, st.arr[b][i], offset, |st.heap|)
    requires AllNew(upto, observed, from, st.locs.Keys)
    ensures var st1, pieces := WithNewBlocks(st, nbs), Pieces(upto, observed, from);
            && Droppable(st1, b, i)
            && var st' := Exchanged(st1, b, i, pieces, |st.heap|);
               exists ps :: SplitAt(st, st', b, i, Val(offset), observed, ps) && Tidy(st')
  {
    NewPiecesCanReplace(upto, observed, from, st.arr[b][i], offset, |st.heap|, st.locs.Keys);
    ExchangeObserves(st, nbs, b, i, Val(offset), observed, Pieces(upto, observed, from));
  }

  /** "delete current struct block", then the pieces in its place. */
  method ReplaceRange(b: Block, index: nat, upto: Option<Object>, observed: Object, from: Option<Object>,
                      s: State, ghost st: Store, ghost first: nat)
    requires s.Valid() && b in s.blocks && st == s.Snapshot() && Droppable(st, b, index)
    requires AllNew(upto, observed, from, s.objects) && ReferFrom(upto, observed, from, first)
    modifies s, s.heap, b
    ensures s.Valid() && s.heap == old(s.heap) && b in s.blocks
    ensures s.Repr == old(s.Repr) + (Single(upto) + {observed} + Single(from))
    ensures s.Snapshot() == Exchanged(st, b, index, Pieces(upto, observed, from), first)
  {
    hide State.Valid, WithObjects, WithoutObject, WithFreed;
    UnionAssociates(s.Repr, Single(upto), {observed}, Single(from));
    DropRange(b, index, s, st);
    InsertPieces(b, index, upto, observed, from, s, first);
  }

  method ObserveRange(b: Block, index: nat, offset: Expr, s: State, ghost st: Store)
    returns (observed: Object)
    requires s.Valid() && b in s.blocks && st == s.Snapshot() && Tidy(st) && b.arr == st.arr[b] && Closed(offset)
    requires index < |b.arr| && b.arr[index].range.Some? && In(Val(offset), b.arr[index])
    modifies s, s.heap, b
    ensures s.Valid() && s.heap == old(s.heap) && fresh(s.Repr - old(s.Repr)) && b in s.blocks
    ensures exists pieces :: SplitAt(st, s.Snapshot(), b, index, Val(offset), observed, pieces) && Tidy(s.Snapshot())
    ensures IsPointer(observed)
  {
    var upto, from;
    ghost var nbs;
    upto, observed, from, nbs := MakePieces(b.arr[index], offset, s);
    ghost var st1 := s.Snapshot();
    NewBlocksDroppable(st, nbs, b, index);
    ReplaceRange(b, index, upto, observed, from, s, st1, |st.heap|);
    NewPiecesObserve(st, nbs, b, index, offset, upto, observed, from);
  }

  method ObserveMissing(b: Block, offset: Expr, s: State) returns (obj: Object)
    requires Ready(s, b) && Closed(offset) && ConcreteArr(b.arr) && !Covered(b.arr, Val(offset))
    modifies s, b
    ensures s.heap == old(s.heap) && fresh(s.Repr - old(s.Repr)) && Ready(s, b)
    ensures Observed(old(s.Snapshot()), s.Snapshot(), b, offset, true, Some(obj)) && obj.value == None
  {
    obj := new Object.Value(offset, None);
    CellBounds(obj);
    AppendKeepsTidy(s.Snapshot(), b, obj);
    ghost var st := s.Snapshot();
    s.InsertObject(b, |b.arr|, obj);
    assert ObservedAt(st, s.Snapshot(), b, offset, true, Some(obj), -1);
  }

  lemma ObservedNothingNew(st: Store, b: Block, offset: Expr, constructive: bool, obj: Option<Object>, i: int)
    requires b in st.arr && ConcreteArr(st.arr[b]) && Closed(offset) && IsIndex(st.arr[b], Val(offset), i)
    requires if i == -1 then !constructive && obj == None else st.arr[b][i].range.None? && obj == Some(st.arr[b][i])
    ensures Observed(st, st, b, offset, constructive, obj)
  {
    assert ObservedAt(st, st, b, offset, constructive, obj, i);
  }

  lemma ObservedSplit(st: Store, st': Store, b: Block, offset: Expr, constructive: bool, obj: Object, i: nat)
    requires b in st.arr && ConcreteArr(st.arr[b]) && Closed(offset) && IsIndex(st.arr[b], Val(offset), i)
    requires st.arr[b][i].range.Some?
    requires exists pieces :: SplitAt(st, st', b, i, Val(offset), obj, pieces)
    ensures Observed(st, st', b, offset, constructive, Some(obj))
  {
    assert ObservedAt(st, st', b, offset, constructive, Some(obj), i);
  }

  method ObserveFound(b: Block, index: nat, offset: Expr, s: State, ghost constructive: bool, ghost st: Store)
    returns (obj: Option<Object>)
    requires Ready(s, b) && st == s.Snapshot() && b.arr == st.arr[b] && Closed(offset)
    requires IsIndex(b.arr, Val(offset), index)
    modifies s, s.heap, b
    ensures s.heap == old(s.heap) && fresh(s.Repr - old(s.Repr)) && Ready(s, b)
    ensures Observed(st, s.Snapshot(), b, offset, constructive, obj)
    ensures obj.Some? && (obj.value == old(b.arr)[index] || IsPointer(obj.value))
  {
    var o := b.arr[index];
    if o.range.None? {
      ObservedNothingNew(st, b, offset, constructive, Some(o), index);
      return Some(o);
    }
    o := ObserveRange(b, index, offset, s, st);
    ObservedSplit(st, s.Snapshot(), b, offset, constructive, o, index);
    return Some(o);
  }

  /** No object holds the offset. */
  method ObserveAbsent(b: Block, offset: Expr, s: State, constructive: bool, ghost st: Store)
    returns (obj: Option<Object>)
    requires Ready(s, b) && st == s.Snapshot() && b.arr == st.arr[b] && Closed(offset)
    requires IsIndex(b.arr, Val(offset), -1)
    modifies s, b
    ensures s.heap == old(s.heap) && fresh(s.Repr - old(s.Repr)) && Ready(s, b)
    ensures Observed(st, s.Snapshot(), b, offset, constructive, obj)
    ensures obj.Some? ==> obj.value.value == None
  {
    if constructive {
      var added := ObserveMissing(b, offset, s);
      return Some(added);
    }
    ObservedNothingNew(st, b, offset, constructive, None, -1);
    return None;
  }

  method Observe(b: Block, offset: Expr, s: State, constructive: bool) returns (obj: Option<Object>)
    requires Ready(s, b) && Closed(offset)
    modifies s, s.heap, b
    ensures s.heap == old(s.heap) && fresh(s.Repr - old(s.Repr)) && Ready(s, b)
    ensures Observed(old(s.Snapshot()), s.Snapshot(), b, offset, constructive, obj)
    ensures obj.Some? && !Covered(old(s.Snapshot()).arr[b], Val(offset)) ==> obj.value.value == None
    ensures Covered(old(s.Snapshot()).arr[b], Val(offset)) ==>
              obj.Some? && (obj.value in old(b.arr) || IsPointer(obj.value))
  {
    ghost var st := s.Snapshot();
    assert st.arr[b] == b.arr;
    hide State.Valid, Observed;
    var index := ArrIndex(b.arr, offset);
    if index == -1 {
      obj := ObserveAbsent(b, offset, s, constructive, st);
    } else {
      obj := ObserveFound(b, index, offset, s, constructive, st);
    }
  }

  lemma AppendKeepsTidy(st: Store, b: Block, o: Object)
    requires Tidy(st) && b in st.arr && o !in st.locs && o.range.None? && Concrete(o)
    requires Hi(o) == Lo(o) + 1 && !Covered(st.arr[b], Lo(o))
    ensures Tidy(WithObject(st, b, |st.arr[b]|, o, []))
  {
  }

  // ---- what observing means ----

  lemma SplitKeepsBlock(st: Store, st': Store, b: Block, i: nat, x: int, obj: Object, pieces: seq<Object>)
    requires Tidy(st) && b in st.arr && i < |st.arr[b]| && st.arr[b][i].range.Some?
    requires SplitAt(st, st', b, i, x, obj, pieces)
    ensures b in st'.arr && ConcreteArr(st'.arr[b])
    ensures forall y :: Covered(st'.arr[b], y) <==> Covered(st.arr[b], y)
    ensures obj in st'.arr[b] && In(x, obj) && obj.range.None?
    ensures forall c :: c in st.arr && c != b ==> c in st'.arr && st'.arr[c] == st.arr[c]
  {
    assert st'.arr[b] == Spliced(st.arr[b], i, pieces);
    assert forall c :: c in st.arr && c != b ==> c in st'.arr && st'.arr[c] == st.arr[c];
    hide Owning, Covered, In, BlockChanged, ReferInTurn, Respliced, Spliced;
    SplitKeepsOffsets(st.arr[b], i, pieces);
    PieceIsSpliced(st.arr[b], i, x, obj, pieces);
  }

  lemma PieceIsSpliced(arr: seq<Object>, i: nat, x: int, obj: Object, pieces: seq<Object>)
    requires i < |arr| && Concrete(arr[i]) && SplitOf(pieces, arr[i], x) && obj in pieces && obj.range.None?
    ensures obj in Spliced(arr, i, pieces) && Concrete(obj) && In(x, obj)
  {
    var k :| 0 <= k < |pieces| && pieces[k] == obj;
    assert Spliced(arr, i, pieces)[i + k] == obj;
  }

  /** Observing keeps the offsets of the block; only a constructive miss adds one, the observed offset. The
      observed object is a single cell of the block at that offset. */
  lemma ObservingKeepsOffsets(st: Store, st': Store, b: Block, offset: Expr, constructive: bool, obj: Option<Object>)
    requires Tidy(st) && b in st.arr && Closed(offset)
    requires Observed(st, st', b, offset, constructive, obj)
    ensures b in st'.arr && ConcreteArr(st'.arr[b])
    ensures forall y :: Covered(st'.arr[b], y) <==> Covered(st.arr[b], y) || (y == Val(offset) && constructive)
    ensures obj == None <==> !Covered(st.arr[b], Val(offset)) && !constructive
    ensures obj.Some? ==> obj.value in st'.arr[b] && obj.value.range.None? && In(Val(offset), obj.value)
    ensures forall c :: c in st.arr && c != b ==> c in st'.arr && st'.arr[c] == st.arr[c]
  {
    hide Owning, SplitAt, Missed;
    var x, arr := Val(offset), st.arr[b];
    var i :| ObservedAt(st, st', b, offset, constructive, obj, i);
    assert i != -1 ==> In(x, arr[i]);
    if i == -1 {
      if constructive {
        MissAddsOffset(st, st', b, offset, obj.value);
      }
    } else if arr[i].range.Some? {
      var pieces :| SplitAt(st, st', b, i, x, obj.value, pieces);
      SplitKeepsBlock(st, st', b, i, x, obj.value, pieces);
    }
  }

  lemma MissAddsOffset(st: Store, st': Store, b: Block, offset: Expr, obj: Object)
    requires Tidy(st) && b in st.arr && Closed(offset) && Missed(st, st', b, offset, obj)
    ensures b in st'.arr && ConcreteArr(st'.arr[b])
    ensures forall y :: Covered(st'.arr[b], y) <==> Covered(st.arr[b], y) || y == Val(offset)
    ensures obj in st'.arr[b] && In(Val(offset), obj) && obj.range.None?
    ensures forall c :: c in st.arr && c != b ==> c in st'.arr && st'.arr[c] == st.arr[c]
  {
    var arr := st.arr[b];
    CellBounds(obj);
    assert st'.arr[b] == arr + [obj];
    CoveredSnoc(arr, obj);
  }

  lemma CoveredSnoc(arr: seq<Object>, o: Object)
    requires ConcreteArr(arr) && Concrete(o)
    ensures ConcreteArr(arr + [o]) && forall y :: Covered(arr + [o], y) <==> Covered(arr, y) || In(y, o)
  {
    forall y | Covered(arr, y) || In(y, o)
      ensures Covered(arr + [o], y)
    {
      if k :| 0 <= k < |arr| && In(y, arr[k]) {
        assert (arr + [o])[k] == arr[k];
      } else {
        assert (arr + [o])[|arr|] == o;
      }
    }
  }

  /** Observing keeps the objects disjoint and each range the owner of its block. */
  lemma ObservedKeepsTidy(st: Store, st': Store, b: Block, offset: Expr, constructive: bool, obj: Option<Object>)
    requires Tidy(st) && b in st.arr && Closed(offset) && Observed(st, st', b, offset, constructive, obj)
    ensures Tidy(st')
  {
    var i :| ObservedAt(st, st', b, offset, constructive, obj, i);
    if i == -1 {
      if constructive {
        CellBounds(obj.value);
        AppendKeepsTidy(st, b, obj.value);
      }
    } else if st.arr[b][i].range.Some? {
      var pieces :| SplitAt(st, st', b, i, Val(offset), obj.value, pieces);
      SplitKeepsTidy(st, st', b, i, Val(offset), obj.value, pieces);
    }
  }

  /** Observing the same offset again, however it is written, returns the same object and changes nothing. */
  lemma ObservingAgain(st: Store, st': Store, st'': Store, b: Block, offset: Expr, again: Expr,
                       c: bool, c': bool, obj: Object, obj': Option<Object>)
    requires Tidy(st) && b in st.arr && Closed(offset) && Closed(again) && Val(offset) == Val(again)
    requires Observed(st, st', b, offset, c, Some(obj)) && b in st'.arr && ConcreteArr(st'.arr[b])
    requires Observed(st', st'', b, again, c', obj')
    ensures st'' == st' && obj' == Some(obj)
  {
    ObservingKeepsOffsets(st, st', b, offset, c, Some(obj));
    ObservedKeepsTidy(st, st', b, offset, c, Some(obj));
    var i :| ObservedAt(st', st'', b, again, c', obj', i);
    var k :| 0 <= k < |st'.arr[b]| && st'.arr[b][k] == obj;
    IndexUnique(st'.arr[b], Val(again), i, k);
  }

  // ---- a split keeps the invariant ----

  /** Every piece that is a range owns its new block. */
  lemma PieceOwns(st: Store, st': Store, b: Block, i: nat, x: int, obj: Object, pieces: seq<Object>, k: nat)
    requires Tidy(st) && b in st.arr && i < |st.arr[b]| && st.arr[b][i].range.Some?
    requires SplitAt(st, st', b, i, x, obj, pieces) && k < |pieces| && pieces[k].range.Some?
    ensures Owns(st', pieces[k])
  {
  }

  lemma OldRangeOwns(st: Store, st': Store, b: Block, i: nat, x: int, obj: Object, pieces: seq<Object>, r: Object)
    requires Tidy(st) && b in st.arr && i < |st.arr[b]| && st.arr[b][i].range.Some? && st.arr[b][i] in st.locs
    requires SplitAt(st, st', b, i, x, obj, pieces) && r in st.locs && r != st.arr[b][i] && r.range.Some?
    ensures Owns(st', r)
  {
  }

  lemma SplitKeepsTidy(st: Store, st': Store, b: Block, i: nat, x: int, obj: Object, pieces: seq<Object>)
    requires Tidy(st) && b in st.arr && i < |st.arr[b]| && st.arr[b][i].range.Some?
    requires SplitAt(st, st', b, i, x, obj, pieces)
    ensures Tidy(st')
  {
    assert st.arr[b][i] in st.arr[b];
    SplitKeepsOffsets(st.arr[b], i, pieces);
    SplitStaysExclusive(st, st', b, i, x, obj, pieces);
    forall r | r in st'.locs && r.range.Some?
      ensures Owns(st', r)
    {
      if r in Elements(pieces) {
        var k :| 0 <= k < |pieces| && pieces[k] == r;
        PieceOwns(st, st', b, i, x, obj, pieces, k);
      } else {
        OldRangeOwns(st, st', b, i, x, obj, pieces, r);
      }
    }
    forall o, l | o in st'.locs && l in st'.locs[o] && l.Dynamic?
      ensures l.block < |st'.heap|
    {
      if o in Elements(pieces) {
        var k :| 0 <= k < |pieces| && pieces[k] == o;
        assert st'.locs[o] == BlockRef(|st.heap| + k);
      }
    }
  }

  lemma SplitStaysExclusive(st: Store, st': Store, b: Block, i: nat, x: int, obj: Object, pieces: seq<Object>)
    requires Tidy(st) && b in st.arr && i < |st.arr[b]| && st.arr[b][i].range.Some?
    requires SplitAt(st, st', b, i, x, obj, pieces)
    ensures Exclusive(st'.arr)
    ensures forall c, o :: c in st'.arr && o in st'.arr[c] ==> o in st'.locs
  {
    var arr := st.arr[b];
    var spliced := Spliced(arr, i, pieces);
    SplicedIsDistinct(arr, i, pieces);
    forall c, d, o | c in st'.arr && d in st'.arr && o in st'.arr[c] && o in st'.arr[d]
      ensures c == d && o in st'.locs
    {
      assert c != b ==> c in st.arr && o in st.arr[c] && o in st.locs;
      assert d != b ==> d in st.arr && o in st.arr[d] && o in st.locs;
    }
  }

  lemma SplicedIsDistinct(arr: seq<Object>, i: nat, pieces: seq<Object>)
    requires i < |arr| && Distinct(arr) && Distinct(pieces) && forall k :: 0 <= k < |pieces| ==> pieces[k] !in arr
    ensures Distinct(Spliced(arr, i, pieces))
    ensures forall o :: o in Spliced(arr, i, pieces) <==> o in Elements(pieces) || (o in arr && o != arr[i])
  {
  }
}
