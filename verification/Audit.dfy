/** The garbage audit: is every live heap block reachable from the result or a parameter? The search is
    spread over locations, blocks, objects and values, and cut short by a circuit breaker that is shared
    along ranges, siblings and struct members but copied for each value object. */
module Audit {
  import opened Util
  import opened Ast
  import opened Memory

  // ---- pointer chains ----

  ghost function BlockAt(st: Store, l: Location): Option<Block> {
    match l
    case Static(i, _) => if i < |st.statics| then Some(st.statics[i]) else None
    case Dereferencable(i, _) => if i < |st.clump| then Some(st.clump[i]) else None
    case Dynamic(i, _) => if i < |st.heap| && i < |st.freed| && !st.freed[i] then Some(st.heap[i]) else None
    case Automatic(f, i, _) =>
      if f < |st.frames| && i < |st.frames[f].blocks| then Some(st.frames[f].blocks[i]) else None
  }

  /** The objects a search looks at from l. */
  ghost function ObjectsAt(st: Store, l: Location): seq<Object> {
    var b := BlockAt(st, l);
    if b.Some? && b.value in st.arr then st.arr[b.value] else []
  }

  ghost function Locs(st: Store, o: Object): seq<Location> {
    if o in st.locs then st.locs[o] else []
  }

  /** Step through object o to a location it holds. */
  datatype Hop = Hop(o: Object, l: Location)

  /** The target itself; of automatic locations the search does not compare the frames. */
  ghost predicate Targets(a: Location, t: Location) {
    a == t || (a.Automatic? && t.Automatic? && a.block == t.block && a.offset == t.offset)
  }

  /** p is a chain of hops from location l to the target. */
  ghost predicate Chain(st: Store, t: Location, l: Location, older p: seq<Hop>)
    decreases |p|
  {
    if p == [] then Targets(l, t)
    else p[0].o in ObjectsAt(st, l) && p[0].l in Locs(st, p[0].o) && Chain(st, t, p[0].l, p[1..])
  }

  ghost predicate Avoids(p: seq<Hop>, cut: set<Object>) {
    forall i :: 0 <= i < |p| ==> p[i].o !in cut
  }

  ghost predicate Reaches(st: Store, t: Location, l: Location, cut: set<Object>) {
    exists p: seq<Hop> :: Chain(st, t, l, p) && Avoids(p, cut)
  }

  ghost predicate ObjectReaches(st: Store, t: Location, o: Object, cut: set<Object>) {
    o !in cut && exists l :: l in Locs(st, o) && Reaches(st, t, l, cut)
  }

  /** What a failed search leaves in the breaker: nothing it added can reach the target without
      passing through what was there before. */
  ghost predicate DeadEnds(st: Store, t: Location, cut: set<Object>, cut': set<Object>) {
    cut <= cut' && forall o :: o in cut' && o !in cut ==> !ObjectReaches(st, t, o, cut)
  }

  lemma ReachesThrough(st: Store, t: Location, l: Location, cut: set<Object>, o: Object)
    requires o in ObjectsAt(st, l) && ObjectReaches(st, t, o, cut)
    ensures Reaches(st, t, l, cut)
  {
    var m :| m in Locs(st, o) && Reaches(st, t, m, cut);
    var p: seq<Hop> :| Chain(st, t, m, p) && Avoids(p, cut);
    var q := [Hop(o, m)] + p;
    assert q[1..] == p;
    assert Chain(st, t, l, q) && Avoids(q, cut);
  }

  lemma ReachesUnfold(st: Store, t: Location, l: Location, cut: set<Object>)
    ensures Reaches(st, t, l, cut) <==>
            Targets(l, t) || exists o :: o in ObjectsAt(st, l) && ObjectReaches(st, t, o, cut)
  {
    if Reaches(st, t, l, cut) {
      var p: seq<Hop> :| Chain(st, t, l, p) && Avoids(p, cut);
      if p != [] {
        assert Chain(st, t, p[0].l, p[1..]) && Avoids(p[1..], cut);
        assert ObjectReaches(st, t, p[0].o, cut);
      }
    } else if Targets(l, t) {
      assert Chain(st, t, l, []) && Avoids([], cut);
    } else if o :| o in ObjectsAt(st, l) && ObjectReaches(st, t, o, cut) {
      ReachesThrough(st, t, l, cut, o);
    }
  }

  lemma ReachesWithLess(st: Store, t: Location, l: Location, cut: set<Object>, cut': set<Object>)
    requires cut <= cut' && Reaches(st, t, l, cut')
    ensures Reaches(st, t, l, cut)
  {
  }

  lemma {:induction false} ChainAvoidsDeadEnds(st: Store, t: Location, l: Location, p: seq<Hop>,
                                               cut: set<Object>, cut': set<Object>)
    requires Chain(st, t, l, p) && Avoids(p, cut) && DeadEnds(st, t, cut, cut')
    ensures Avoids(p, cut')
    decreases |p|
  {
    if p != [] {
      assert Avoids(p[1..], cut);
      assert Reaches(st, t, p[0].l, cut);
      assert p[0].o !in cut && ObjectReaches(st, t, p[0].o, cut);
      ChainAvoidsDeadEnds(st, t, p[0].l, p[1..], cut, cut');
      forall i | 0 <= i < |p|
        ensures p[i].o !in cut'
      {
        assert i > 0 ==> p[i] == p[1..][i - 1];
      }
    }
  }

  /** Cutting dead ends as well changes no answer. */
  lemma DeadEndsDoNotMatter(st: Store, t: Location, l: Location, cut: set<Object>, cut': set<Object>)
    requires DeadEnds(st, t, cut, cut')
    ensures Reaches(st, t, l, cut) <==> Reaches(st, t, l, cut')
  {
    if Reaches(st, t, l, cut) {
      var p: seq<Hop> :| Chain(st, t, l, p) && Avoids(p, cut);
      ChainAvoidsDeadEnds(st, t, l, p, cut, cut');
    }
    if Reaches(st, t, l, cut') {
      ReachesWithLess(st, t, l, cut, cut');
    }
  }

  lemma DeadEndsDoNotMatterToObjects(st: Store, t: Location, o: Object, cut: set<Object>, cut': set<Object>)
    requires DeadEnds(st, t, cut, cut')
    ensures ObjectReaches(st, t, o, cut) <==> ObjectReaches(st, t, o, cut')
  {
    forall l
      ensures Reaches(st, t, l, cut) <==> Reaches(st, t, l, cut')
    {
      DeadEndsDoNotMatter(st, t, l, cut, cut');
    }
  }

  lemma DeadEndsCompose(st: Store, t: Location, c0: set<Object>, c1: set<Object>, c2: set<Object>)
    requires DeadEnds(st, t, c0, c1) && DeadEnds(st, t, c1, c2)
    ensures DeadEnds(st, t, c0, c2)
  {
    forall o | o in c2 && o !in c0
      ensures !ObjectReaches(st, t, o, c0)
    {
      DeadEndsDoNotMatterToObjects(st, t, o, c0, c1);
    }
  }

  /** After failing on earlier siblings the breaker answers for the next one as it would have at first. */
  lemma NextSibling(st: Store, t: Location, o: Object, cut: set<Object>, cut': set<Object>, cut'': set<Object>)
    requires DeadEnds(st, t, cut, cut') && !ObjectReaches(st, t, o, cut') && DeadEnds(st, t, cut', cut'')
    ensures DeadEnds(st, t, cut, cut'') && !ObjectReaches(st, t, o, cut)
  {
    DeadEndsDoNotMatterToObjects(st, t, o, cut, cut');
    DeadEndsCompose(st, t, cut, cut', cut'');
  }

  /** A chain that comes back to o can start over from there, so o itself may be cut. */
  lemma {:induction false} ChainWithoutReturn(st: Store, t: Location, o: Object, l: Location, p: seq<Hop>,
                                              cut: set<Object>)
    requires l in Locs(st, o) && Chain(st, t, l, p) && Avoids(p, cut)
    ensures exists m :: m in Locs(st, o) && Reaches(st, t, m, cut + {o})
    decreases |p|
  {
    if i :| 0 <= i < |p| && p[i].o == o {
      ChainSuffix(st, t, l, p, i);
      assert Avoids(p[i + 1..], cut);
      ChainWithoutReturn(st, t, o, p[i].l, p[i + 1..], cut);
    } else {
      assert Avoids(p, cut + {o});
    }
  }

  lemma {:induction false} ChainSuffix(st: Store, t: Location, l: Location, p: seq<Hop>, i: nat)
    requires Chain(st, t, l, p) && i < |p|
    ensures p[i].l in Locs(st, p[i].o) && Chain(st, t, p[i].l, p[i + 1..])
    decreases |p|
  {
    if i > 0 {
      ChainSuffix(st, t, p[0].l, p[1..], i - 1);
      assert p[1..][i - 1 + 1..] == p[i + 1..];
    }
  }

  /** Searching an object: mark it, then search what it holds. */
  lemma ObjectReachesUnfold(st: Store, t: Location, o: Object, cut: set<Object>)
    requires o !in cut
    ensures ObjectReaches(st, t, o, cut) <==> exists l :: l in Locs(st, o) && Reaches(st, t, l, cut + {o})
  {
    if ObjectReaches(st, t, o, cut) {
      var l :| l in Locs(st, o) && Reaches(st, t, l, cut);
      var p: seq<Hop> :| Chain(st, t, l, p) && Avoids(p, cut);
      ChainWithoutReturn(st, t, o, l, p, cut);
    }
    if l :| l in Locs(st, o) && Reaches(st, t, l, cut + {o}) {
      ReachesWithLess(st, t, l, cut, cut + {o});
    }
  }

  lemma FailedObjectIsDeadEnd(st: Store, t: Location, o: Object, cut: set<Object>, cut': set<Object>)
    requires o !in cut && !ObjectReaches(st, t, o, cut) && DeadEnds(st, t, cut + {o}, cut')
    ensures DeadEnds(st, t, cut, cut')
  {
    assert DeadEnds(st, t, cut, cut + {o});
    DeadEndsCompose(st, t, cut, cut + {o}, cut');
  }

  // ---- the store the search runs on ----

  /** No pointer leads into a popped frame, and stored offsets are of comparable kinds. */
  ghost predicate Sound(st: Store) {
    && (forall o, l :: o in st.locs && l in st.locs[o] ==> SoundAt(st, l))
    && forall b, o :: b in st.arr && o in st.arr[b] ==> o in st.locs
  }

  ghost predicate SoundAt(st: Store, l: Location) {
    && Comparable(l.offset)
    && (l.Automatic? ==> l.frame < |st.frames| && l.block < |st.frames[l.frame].blocks|)
  }

  /** src/util/util.c's struct circuitbreaker: the objects already looked at. */
  class CircuitBreaker {
    var obj: seq<Object>

    constructor ()
      ensures obj == []
    {
      obj := [];
    }

    constructor Copy(old': CircuitBreaker)
      ensures obj == old'.obj
    {
      obj := [];
      new;
      for i := 0 to |old'.obj|
        invariant obj == old'.obj[..i]
      {
        obj := obj + [old'.obj[i]];
      }
    }

    ghost function Cut(): set<Object>
      reads this
    {
      set o | o in obj
    }

    method Append(o: Object) returns (added: bool)
      modifies this
      ensures added <==> o !in old(Cut())
      ensures Cut() == old(Cut()) + {o}
    {
      for i := 0 to |obj|
        invariant o !in obj[..i] && obj == old(obj)
      {
        if obj[i] == o {
          return false;
        }
      }
      obj := obj + [o];
      return true;
    }
  }

  // ---- the search ----

  ghost predicate Searchable(s: State, st: Store, t: Location, cb: CircuitBreaker)
    reads s, s.Repr
  {
    s.Valid() && s.Snapshot() == st && Sound(st) && Comparable(t.offset) && cb !in s.Repr
  }

  method LocationReferences(l: Location, t: Location, s: State, cb: CircuitBreaker, ghost st: Store)
    returns (ans: bool)
    requires Searchable(s, st, t, cb) && SoundAt(st, l)
    modifies cb
    ensures Searchable(s, st, t, cb)
    ensures ans <==> Reaches(st, t, l, old(cb.Cut()))
    ensures !ans ==> DeadEnds(st, t, old(cb.Cut()), cb.Cut())
    decreases st.locs.Keys - cb.Cut(), 3
  {
    ReachesUnfold(st, t, l, cb.Cut());
    LocationEqualMeans(l, t);
    if LocationEqual(l, t) {
      return true;
    }
    var b := s.GetBlock(l);
    assert b == BlockAt(st, l);
    if b == None {
      return false;
    }
    assert b.value.arr == ObjectsAt(st, l);
    ans := BlockReferences(b.value, t, s, cb, st);
  }

  method BlockReferences(b: Block, t: Location, s: State, cb: CircuitBreaker, ghost st: Store)
    returns (ans: bool)
    requires Searchable(s, st, t, cb) && b in st.arr
    modifies cb
    ensures Searchable(s, st, t, cb)
    ensures ans <==> exists o :: o in st.arr[b] && ObjectReaches(st, t, o, old(cb.Cut()))
    ensures !ans ==> DeadEnds(st, t, old(cb.Cut()), cb.Cut())
    decreases st.locs.Keys - cb.Cut(), 2
  {
    ghost var cut := cb.Cut();
    var objs := b.arr;
    for i := 0 to |objs|
      invariant Searchable(s, st, t, cb)
      invariant DeadEnds(st, t, cut, cb.Cut())
      invariant forall j :: 0 <= j < i ==> !ObjectReaches(st, t, objs[j], cut)
    {
      ghost var cut' := cb.Cut();
      var found := ObjectReferences(objs[i], t, s, cb, st);
      if found {
        DeadEndsDoNotMatterToObjects(st, t, objs[i], cut, cut');
        return true;
      }
      NextSibling(st, t, objs[i], cut, cut', cb.Cut());
    }
    return false;
  }

  method ObjectReferences(o: Object, t: Location, s: State, cb: CircuitBreaker, ghost st: Store)
    returns (ans: bool)
    requires Searchable(s, st, t, cb) && o in st.locs
    modifies cb
    ensures Searchable(s, st, t, cb)
    ensures ans <==> ObjectReaches(st, t, o, old(cb.Cut()))
    ensures !ans ==> DeadEnds(st, t, old(cb.Cut()), cb.Cut())
    decreases st.locs.Keys - cb.Cut(), 1
  {
    ghost var cut := cb.Cut();
    var added := cb.Append(o);
    if !added {
      return false;
    }
    ObjectReachesUnfold(st, t, o, cut);
    ans := HeldReferences(o, t, s, cb, st);
    if !ans {
      FailedObjectIsDeadEnd(st, t, o, cut, cb.Cut());
    }
  }

  /** The two branches of object_references: a range shares the breaker, a value searches with a copy. */
  method HeldReferences(o: Object, t: Location, s: State, cb: CircuitBreaker, ghost st: Store)
    returns (ans: bool)
    requires Searchable(s, st, t, cb) && o in st.locs
    modifies cb
    ensures Searchable(s, st, t, cb)
    ensures ans <==> exists l :: l in Locs(st, o) && Reaches(st, t, l, old(cb.Cut()))
    ensures !ans ==> DeadEnds(st, t, old(cb.Cut()), cb.Cut())
    decreases st.locs.Keys - cb.Cut(), 5
  {
    assert Locs(st, o) == o.Locs();
    if o.range.Some? {
      ans := LocationReferences(o.range.value.loc, t, s, cb, st);
      assert forall l :: l in Locs(st, o) <==> l == o.range.value.loc;
    } else if o.value.Some? {
      var copy := new CircuitBreaker.Copy(cb);
      ans := ValueReferences(o.value.value, t, s, copy, st);
    } else {
      ans := false;
    }
  }

  method ValueReferences(v: Value, t: Location, s: State, cb: CircuitBreaker, ghost st: Store)
    returns (ans: bool)
    requires Searchable(s, st, t, cb) && forall l :: l in ValueLocs(v) ==> SoundAt(st, l)
    modifies cb
    ensures Searchable(s, st, t, cb)
    ensures ans <==> exists l :: l in ValueLocs(v) && Reaches(st, t, l, old(cb.Cut()))
    ensures !ans ==> DeadEnds(st, t, old(cb.Cut()), cb.Cut())
    decreases st.locs.Keys - cb.Cut(), 4, v
  {
    match v
    case Ptr(loc) =>
      ans := LocationReferences(loc, t, s, cb, st);
      assert forall l :: l in ValueLocs(v) <==> l == loc;
    case Struct(members) =>
      ans := StructReferences(v, t, s, cb, st);
    case _ =>
      ans := false;
  }

  lemma {:induction false} MemberLocsOf(members: seq<Entry<Option<Value>>>, l: Location)
    ensures l in MemberLocs(members) <==>
            exists i :: 0 <= i < |members| && members[i].value.Some? && l in ValueLocs(members[i].value.value)
  {
    if members != [] {
      MemberLocsOf(members[1..], l);
    }
  }

  method StructReferences(v: Value, t: Location, s: State, cb: CircuitBreaker, ghost st: Store)
    returns (ans: bool)
    requires v.Struct?
    requires Searchable(s, st, t, cb) && forall l :: l in ValueLocs(v) ==> SoundAt(st, l)
    modifies cb
    ensures Searchable(s, st, t, cb)
    ensures ans <==> exists l :: l in ValueLocs(v) && Reaches(st, t, l, old(cb.Cut()))
    ensures !ans ==> DeadEnds(st, t, old(cb.Cut()), cb.Cut())
    decreases st.locs.Keys - cb.Cut(), 4, v, 0
  {
    ghost var cut := cb.Cut();
    var members := v.members;
    forall l
      ensures l in ValueLocs(v) <==>
              exists i :: 0 <= i < |members| && members[i].value.Some? && l in ValueLocs(members[i].value.value)
    {
      MemberLocsOf(members, l);
    }
    for i := 0 to |members|
      invariant Searchable(s, st, t, cb)
      invariant DeadEnds(st, t, cut, cb.Cut())
      invariant forall j, l :: 0 <= j < i && members[j].value.Some? && l in ValueLocs(members[j].value.value) ==>
        !Reaches(st, t, l, cut)
    {
      if members[i].value.Some? {
        ghost var cut' := cb.Cut();
        forall l
          ensures Reaches(st, t, l, cut) <==> Reaches(st, t, l, cut')
        {
          DeadEndsDoNotMatter(st, t, l, cut, cut');
        }
        var found := ValueReferences(members[i].value.value, t, s, cb, st);
        if found {
          return true;
        }
        DeadEndsCompose(st, t, cut, cut', cb.Cut());
      }
    }
    return false;
  }

  // ---- the audit ----

  /** The locations the audit starts from: the result and the parameters of the current frame. */
  ghost predicate Root(st: Store, l: Location) {
    && |st.frames| > 0
    && var f := st.frames[|st.frames| - 1];
       || (f.result.Some? && f.result.value.loc == l)
       || exists i :: 0 <= i < |f.varmap| && f.varmap[i].value.isparam && f.varmap[i].value.loc == l
  }

  ghost predicate SoundRoots(st: Store) {
    |st.frames| > 0 && forall l :: Root(st, l) ==> SoundAt(st, l)
  }

  /** t lies on some pointer chain from a root. */
  ghost predicate Referenced(st: Store, t: Location) {
    exists l :: Root(st, l) && Reaches(st, t, l, {})
  }

  method VariableReferences(v: Variable, t: Location, s: State, ghost st: Store) returns (ans: bool)
    requires s.Valid() && s.Snapshot() == st && Sound(st) && Comparable(t.offset) && SoundAt(st, v.loc)
    ensures s.Valid() && s.Snapshot() == st
    ensures ans <==> Reaches(st, t, v.loc, {})
  {
    var cb := new CircuitBreaker();
    ans := LocationReferences(v.loc, t, s, cb, st);
  }

  method StackReferences(t: Location, s: State, ghost st: Store) returns (ans: bool)
    requires s.Valid() && s.Snapshot() == st && Sound(st) && SoundRoots(st) && Comparable(t.offset)
    ensures s.Valid() && s.Snapshot() == st
    ensures ans <==> Referenced(st, t)
  {
    var f := s.frames[|s.frames| - 1];
    if f.result.Some? {
      assert Root(st, f.result.value.loc);
      var found := VariableReferences(f.result.value, t, s, st);
      if found {
        return true;
      }
    }
    for i := 0 to |f.varmap|
      invariant s.Valid() && s.Snapshot() == st
      invariant forall j :: 0 <= j < i && f.varmap[j].value.isparam ==> !Reaches(st, t, f.varmap[j].value.loc, {})
    {
      if f.varmap[i].value.isparam {
        assert Root(st, f.varmap[i].value.loc);
        var found := VariableReferences(f.varmap[i].value, t, s, st);
        if found {
          return true;
        }
      }
    }
    return false;
  }

  ghost predicate Garbage(st: Store, addr: nat) {
    addr < |st.heap| && addr < |st.freed| && !st.freed[addr] && !Referenced(st, Dynamic(addr, Constant(0)))
  }

  /** state_hasgarbage: some live heap block is on no pointer chain from the result or a parameter. */
  method HasGarbage(s: State, ghost st: Store) returns (garbage: bool)
    requires s.Valid() && s.Snapshot() == st && Sound(st) && SoundRoots(st)
    ensures s.Valid() && s.Snapshot() == st
    ensures garbage <==> exists addr :: Garbage(st, addr)
  {
    for i := 0 to |s.heap.blocks|
      invariant s.Valid() && s.Snapshot() == st
      invariant forall j :: 0 <= j < i ==> !Garbage(st, j)
    {
      if !s.heap.freed[i] {
        var referenced := StackReferences(Dynamic(i, Constant(0)), s, st);
        if !referenced {
          assert Garbage(st, i);
          return true;
        }
      }
    }
    return false;
  }
}
