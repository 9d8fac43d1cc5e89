/** The symbolic memory of a state (src/state, src/object, src/value): heap, stack frames, clump and static
    memory are arrays of blocks, a block is an array of objects, an object holds a value or a range. */
module Memory {
  import opened Util
  import opened Ast

  datatype Location =
    | Static(block: nat, offset: Expr)
    | Automatic(frame: nat, block: nat, offset: Expr)
    | Dynamic(block: nat, offset: Expr)
    | Dereferencable(block: nat, offset: Expr)

  /** location_equal; it does not compare the frames of automatic locations. */
  predicate LocationEqual(a: Location, b: Location)
    requires Comparable(a.offset) && Comparable(b.offset)
  {
    SameRegion(a, b) && a.block == b.block && Equal(a.offset, b.offset)
  }

  predicate SameRegion(a: Location, b: Location) {
    a.Static? == b.Static? && a.Automatic? == b.Automatic? && a.Dynamic? == b.Dynamic?
  }

  /** The comparison is equality, except that automatic locations may differ in their frames. */
  lemma LocationEqualMeans(a: Location, b: Location)
    requires Comparable(a.offset) && Comparable(b.offset)
    ensures LocationEqual(a, b) <==>
            a == b || (a.Automatic? && b.Automatic? && a.block == b.block && a.offset == b.offset)
  {
    EqualIsStructural(a.offset, b.offset);
  }

  datatype Value =
    | Ptr(loc: Location)
    | IndefinitePtr
    | Int(k: int)
    | IndefiniteInt
    | Sync(e: Expr)
    | Literal(s: string)
    | Struct(members: seq<Entry<Option<Value>>>)

  /** The locations a value holds, in the order value_references meets them. */
  function ValueLocs(v: Value): seq<Location> {
    match v
    case Ptr(loc) => [loc]
    case Struct(members) => MemberLocs(members)
    case _ => []
  }

  function MemberLocs(members: seq<Entry<Option<Value>>>): seq<Location> {
    if members == [] then []
    else
      (match members[0].value case None => [] case Some(v) => ValueLocs(v)) + MemberLocs(members[1..])
  }

  function Pointers(v: Option<Value>): seq<Location> {
    if v.Some? then ValueLocs(v.value) else []
  }

  /** The value is a pointer to l, or a struct one of whose members holds one. */
  ghost predicate PointsTo(v: Value, l: Location)
    decreases v
  {
    match v
    case Ptr(loc) => loc == l
    case Struct(members) => exists m :: m in members && m.value.Some? && PointsTo(m.value.value, l)
    case _ => false
  }

  /** These are the locations of all the pointers in the value, however deep in structs. */
  lemma {:induction false} ValueLocsAre(v: Value, l: Location)
    ensures l in ValueLocs(v) <==> PointsTo(v, l)
    decreases v
  {
    if v.Struct? {
      MemberLocsAre(v.members, l);
    }
  }

  lemma {:induction false} MemberLocsAre(members: seq<Entry<Option<Value>>>, l: Location)
    ensures l in MemberLocs(members) <==> exists m :: m in members && m.value.Some? && PointsTo(m.value.value, l)
    decreases members
  {
    if members != [] {
      if members[0].value.Some? {
        ValueLocsAre(members[0].value.value, l);
      }
      MemberLocsAre(members[1..], l);
    }
  }

  /** A virtual object standing for `size` cells; `loc` is the heap block that makes them deallocatable. */
  datatype Range = Range(size: Expr, loc: Location)

  class Object {
    const offset: Expr
    const range: Option<Range>
    var value: Option<Value>

    constructor Value(offset: Expr, value: Option<Value>)
      ensures this.offset == offset && range == None && this.value == value
    {
      this.offset := offset;
      this.range := None;
      this.value := value;
    }

    constructor Virtual(offset: Expr, range: Range)
      ensures this.offset == offset && this.range == Some(range) && value == None
    {
      this.offset := offset;
      this.range := Some(range);
      this.value := None;
    }

    function Locs(): seq<Location>
      reads this
    {
      if range.Some? then [range.value.loc] else Pointers(value)
    }
  }

  class Block {
    var arr: seq<Object>

    constructor ()
      ensures arr == []
    {
      arr := [];
    }

    /** object_arr_insert: make room and shift the tail up. */
    method Insert(index: nat, o: Object)
      requires index <= |arr|
      modifies this
      ensures arr == old(arr)[..index] + [o] + old(arr)[index..]
    {
      arr := arr + [o];
      var i := |arr| - 1;
      while i > index
        invariant index <= i < |arr| == |old(arr)| + 1
        invariant forall k :: 0 <= k < i ==> arr[k] == old(arr)[k]
        invariant forall k :: i < k < |arr| ==> arr[k] == old(arr)[k - 1]
      {
        arr := arr[i := arr[i - 1]];
        i := i - 1;
      }
      arr := arr[index := o];
    }

    /** object_arr_remove: shift the tail down and shrink. */
    method Remove(index: nat)
      requires index < |arr|
      modifies this
      ensures arr == old(arr)[..index] + old(arr)[index + 1..]
    {
      for i := index to |arr| - 1
        invariant |arr| == |old(arr)|
        invariant forall k :: 0 <= k < index ==> arr[k] == old(arr)[k]
        invariant forall k :: index <= k < i ==> arr[k] == old(arr)[k + 1]
        invariant forall k :: i <= k < |arr| ==> arr[k] == old(arr)[k]
      {
        arr := arr[i := arr[i + 1]];
      }
      arr := arr[..|arr| - 1];
    }
  }

  /** An object refers to the block of its range, or to what its value points to, and to nothing else. */
  lemma ObjectLocsAre(o: Object, l: Location)
    ensures l in o.Locs() <==> if o.range.Some? then l == o.range.value.loc
                               else o.value.Some? && PointsTo(o.value.value, l)
  {
    if o.value.Some? {
      ValueLocsAre(o.value.value, l);
    }
  }

  datatype Variable = Variable(loc: Location, isparam: bool)

  /** A stack frame; the frame's id is its position in the stack. */
  datatype Frame = Frame(blocks: seq<Block>, varmap: seq<Entry<Variable>>, result: Option<Variable>)

  /** Everything a read-only query can see, as a value. */
  datatype Store = Store(heap: seq<Block>, freed: seq<bool>, frames: seq<Frame>, clump: seq<Block>,
                               statics: seq<Block>, arr: map<Block, seq<Object>>, locs: map<Object, seq<Location>>)

  // ---- the elementary steps on a store ----

  ghost function WithNewBlock(st: Store, b: Block): Store {
    st.(heap := st.heap + [b], freed := st.freed + [false], arr := st.arr[b := []])
  }

  ghost function WithNewBlocks(st: Store, bs: seq<Block>): (st': Store)
    ensures |st'.heap| == |st.heap| + |bs|
  {
    if bs == [] then st else WithNewBlock(WithNewBlocks(st, bs[..|bs| - 1]), bs[|bs| - 1])
  }

  ghost function WithFreed(st: Store, addr: nat): Store
    requires addr < |st.freed|
  {
    st.(freed := st.freed[addr := true])
  }

  ghost function WithoutObject(st: Store, b: Block, i: nat): Store
    requires b in st.arr && i < |st.arr[b]|
  {
    st.(arr := st.arr[b := st.arr[b][..i] + st.arr[b][i + 1..]], locs := st.locs - {st.arr[b][i]})
  }

  ghost function WithObject(st: Store, b: Block, i: nat, o: Object, ls: seq<Location>): Store
    requires b in st.arr && i <= |st.arr[b]|
  {
    st.(arr := st.arr[b := st.arr[b][..i] + [o] + st.arr[b][i..]], locs := st.locs[o := ls])
  }

  ghost function WithValue(st: Store, o: Object, ls: seq<Location>): Store {
    st.(locs := st.locs[o := ls])
  }

  /** Each object sits in one place of one block. */
  ghost predicate Exclusive(arr: map<Block, seq<Object>>) {
    && (forall b :: b in arr ==> Distinct(arr[b]))
    && forall b, c, o :: b in arr && c in arr && o in arr[b] && o in arr[c] ==> b == c
  }

  lemma InsertedElements<T>(s: seq<T>, i: nat, x: T)
    requires i <= |s|
    ensures forall y :: y in s[..i] + [x] + s[i..] <==> y in s || y == x
  {
  }

  lemma RemovedElements<T>(s: seq<T>, i: nat)
    requires i < |s| && Distinct(s)
    ensures forall y :: y in s[..i] + s[i + 1..] <==> y in s && y != s[i]
  {
  }

  class Heap {
    var blocks: seq<Block>
    var freed: seq<bool>

    constructor ()
      ensures blocks == [] && freed == []
    {
      blocks, freed := [], [];
    }

    method NewBlock() returns (loc: Location, b: Block)
      modifies this
      ensures fresh(b) && b.arr == []
      ensures blocks == old(blocks) + [b] && freed == old(freed) + [false]
      ensures loc == Dynamic(|old(blocks)|, Constant(0))
    {
      b := new Block();
      loc := Dynamic(|blocks|, Constant(0));
      blocks := blocks + [b];
      freed := freed + [false];
    }

    /** False is the error "double free". */
    method DeallocBlock(address: nat) returns (ok: bool)
      requires address < |blocks| == |freed|
      modifies this
      ensures ok <==> !old(freed)[address]
      ensures blocks == old(blocks) && freed == old(freed)[address := true]
    {
      if freed[address] {
        return false;
      }
      freed := freed[address := true];
      return true;
    }
  }

  datatype FreeError = NotPointingAtHeap | NotHeapLocation | FreedTwice

  class State {
    var heap: Heap
    var frames: seq<Frame>
    var clump: seq<Block>
    var statics: seq<Block>
    ghost var blocks: set<Block> // every block of the four memories
    ghost var objects: set<Object> // every object in them
    ghost var Repr: set<object>

    /** state_create: empty memories and one frame whose result variable is uninitialised. */
    constructor ()
      ensures Valid() && fresh(Repr)
      ensures heap.blocks == [] && clump == [] && statics == []
      ensures |frames| == 1 && |frames[0].blocks| == 1 && frames[0].varmap == []
      ensures frames[0].result == Some(Variable(Automatic(0, 0, Constant(0)), false))
      ensures heap.freed == [] && blocks == {frames[0].blocks[0]} && |frames[0].blocks[0].arr| == 1
      ensures var o := frames[0].blocks[0].arr[0];
              objects == {o} && o.offset == Constant(0) && o.range == None && o.value == None
    {
      var h := new Heap();
      var b := new Block();
      var o := new Object.Value(Constant(0), None);
      b.arr := [o];
      heap := h;
      frames := [Frame([b], [], Some(Variable(Automatic(0, 0, Constant(0)), false)))];
      clump, statics := [], [];
      blocks, objects := {b}, {o};
      Repr := {this, h, b, o};
    }

    ghost predicate Valid()
      reads this, Repr
    {
      && this in Repr && heap in Repr
      && |heap.freed| == |heap.blocks|
      && (forall i :: 0 <= i < |heap.blocks| ==> heap.blocks[i] in blocks)
      && (forall i :: 0 <= i < |clump| ==> clump[i] in blocks)
      && (forall i :: 0 <= i < |statics| ==> statics[i] in blocks)
      && (forall f, i :: 0 <= f < |frames| && 0 <= i < |frames[f].blocks| ==> frames[f].blocks[i] in blocks)
      && (forall b :: b in blocks ==> b in Repr)
      && (forall o :: o in objects ==> o in Repr)
      && forall b, o :: b in blocks && o in b.arr ==> o in objects
    }

    ghost function Snapshot(): Store
      requires Valid()
      reads this, Repr
    {
      Store(heap.blocks, heap.freed, frames, clump, statics,
            map b | b in blocks :: b.arr, map o | o in objects :: o.Locs())
    }

    /** A location in a frame that still exists. */
    predicate InFrame(l: Location)
      reads this
    {
      l.Automatic? ==> l.frame < |frames| && l.block < |frames[l.frame].blocks|
    }

    /** state_getblock: a freed or missing block is None; a popped frame aborts. */
    function GetBlock(l: Location): (b: Option<Block>)
      requires |heap.freed| == |heap.blocks| && InFrame(l)
      reads this, heap
    {
      match l
      case Static(i, _) => if i < |statics| then Some(statics[i]) else None
      case Dereferencable(i, _) => if i < |clump| then Some(clump[i]) else None
      case Dynamic(i, _) => if i < |heap.blocks| && !heap.freed[i] then Some(heap.blocks[i]) else None
      case Automatic(f, i, _) => Some(frames[f].blocks[i])
    }

    /** state_isdeallocand */
    predicate IsDeallocand(l: Location)
      requires |heap.freed| == |heap.blocks| && InFrame(l)
      reads this, heap
    {
      l.Dynamic? && GetBlock(l).Some?
    }

    /** state_alloc */
    method Alloc() returns (v: Value, ghost b: Block)
      requires Valid()
      modifies this, heap
      ensures Valid() && heap == old(heap) && fresh(b) && Repr == old(Repr) + {b}
      ensures blocks == old(blocks) + {b} && objects == old(objects)
      ensures v == Ptr(Dynamic(|old(heap.blocks)|, Constant(0)))
      ensures Snapshot() == WithNewBlock(old(Snapshot()), b)
    {
      var loc, nb := heap.NewBlock();
      blocks := blocks + {nb};
      Repr := Repr + {nb};
      b := nb;
      v := Ptr(loc);
      assert Valid();
      assert Snapshot().arr == old(Snapshot()).arr[b := []];
      assert Snapshot().locs == old(Snapshot()).locs;
    }

    /** heap_deallocblock through a state; false is the error "double free". */
    method Free(addr: nat) returns (ok: bool)
      requires Valid() && addr < |heap.blocks|
      modifies heap
      ensures Valid()
      ensures ok <==> !old(heap.freed)[addr]
      ensures Snapshot() == WithFreed(old(Snapshot()), addr)
    {
      ok := heap.DeallocBlock(addr);
    }

    /** state_dealloc */
    method Dealloc(v: Value) returns (err: Option<FreeError>)
      requires Valid() && (v.Ptr? && v.loc.Dynamic? ==> v.loc.block < |heap.blocks|)
      modifies heap
      ensures Valid()
      ensures err == if !v.Ptr? then Some(NotPointingAtHeap)
                     else if !v.loc.Dynamic? then Some(NotHeapLocation)
                     else if old(heap.freed)[v.loc.block] then Some(FreedTwice)
                     else None
      ensures Snapshot() == if err == None then WithFreed(old(Snapshot()), v.loc.block) else old(Snapshot())
    {
      if !v.Ptr? {
        return Some(NotPointingAtHeap);
      }
      if !v.loc.Dynamic? {
        return Some(NotHeapLocation);
      }
      var ok := Free(v.loc.block);
      if !ok {
        assert old(heap.freed)[v.loc.block := true] == old(heap.freed);
        return Some(FreedTwice);
      }
      return None;
    }

    /** object_assign */
    method Assign(o: Object, v: Option<Value>)
      requires Valid() && o in objects && o.range.None?
      modifies o
      ensures Valid() && o.value == v
      ensures Snapshot() == WithValue(old(Snapshot()), o, Pointers(v))
    {
      o.value := v;
    }

    /** Insert a new object into the array of a block of this state. */
    method InsertObject(b: Block, index: nat, o: Object)
      requires Valid() && b in blocks && index <= |b.arr| && o !in objects
      modifies this, b
      ensures Valid() && heap == old(heap) && Repr == old(Repr) + {o}
      ensures blocks == old(blocks) && objects == old(objects) + {o}
      ensures Snapshot() == WithObject(old(Snapshot()), b, index, o, o.Locs())
    {
      InsertedElements(b.arr, index, o);
      ghost var arrs := Snapshot().arr;
      b.Insert(index, o);
      objects := objects + {o};
      Repr := Repr + {o};
      forall c, p | c in blocks && p in c.arr
        ensures p in objects
      {
        assert c != b ==> c.arr == arrs[c];
      }
      assert Valid();
      assert Snapshot().arr == arrs[b := b.arr];
      assert Snapshot().locs == old(Snapshot()).locs[o := o.Locs()];
    }

    /** Remove an object, which by exclusivity is in no other block. */
    method RemoveObject(b: Block, index: nat)
      requires Valid() && b in blocks && index < |b.arr|
      requires Exclusive(Snapshot().arr)
      modifies this, b
      ensures Valid() && heap == old(heap) && Repr == old(Repr)
      ensures blocks == old(blocks) && objects == old(objects) - {old(b.arr[index])}
      ensures Snapshot() == WithoutObject(old(Snapshot()), b, index)
    {
      ghost var gone, arrs := b.arr[index], Snapshot().arr;
      assert arrs[b] == b.arr;
      RemovedElements(b.arr, index);
      b.Remove(index);
      objects := objects - {gone};
      forall c, o | c in blocks && o in c.arr
        ensures o in objects
      {
        assert o in arrs[c];
      }
      assert Valid();
      assert Snapshot().arr == arrs[b := b.arr];
      assert Snapshot().locs == old(Snapshot()).locs - {gone};
    }
  }
}
