/** Who owns which heap block: the invariant that lets every virtual range be deallocated exactly once,
    and the effect of each memory step on it. */
module Ownership {
  import opened Util
  import opened Ast
  import opened Memory

  // ---- the invariant ----

  ghost predicate Live(st: Store, addr: nat) {
    addr < |st.heap| && addr < |st.freed| && !st.freed[addr]
  }

  ghost predicate Mentions(st: Store, o: Object, addr: nat) {
    o in st.locs && exists l :: l in st.locs[o] && l.Dynamic? && l.block == addr
  }

  /** Every range owns a live heap block which no other object, range or value, refers to. */
  ghost predicate Owning(st: Store) {
    && |st.freed| == |st.heap|
    && Exclusive(st.arr)
    && (forall b, o :: b in st.arr && o in st.arr[b] ==> o in st.locs)
    && (forall o :: o in st.locs && o.range.Some? ==> Owns(st, o))
    && forall o, l :: o in st.locs && l in st.locs[o] && l.Dynamic? ==> l.block < |st.heap|
  }

  ghost predicate Owns(st: Store, r: Object)
    requires r in st.locs && r.range.Some?
  {
    var l := r.range.value.loc;
    && l.Dynamic? && Live(st, l.block) && st.locs[r] == [l]
    && forall o :: o in st.locs && o != r ==> !Mentions(st, o, l.block)
  }

  /** A live block nothing refers to yet, as a fresh allocation is. */
  ghost predicate Unused(st: Store, addr: nat) {
    Live(st, addr) && forall o :: o in st.locs ==> !Mentions(st, o, addr)
  }

  ghost function LiveCount(freed: seq<bool>): nat {
    if freed == [] then 0 else LiveCount(freed[..|freed| - 1]) + if freed[|freed| - 1] then 0 else 1
  }

  lemma LiveCountNew(freed: seq<bool>)
    ensures LiveCount(freed + [false]) == LiveCount(freed) + 1
  {
  }

  lemma {:induction false} LiveCountFreed(freed: seq<bool>, addr: nat)
    requires addr < |freed| && !freed[addr]
    ensures LiveCount(freed[addr := true]) == LiveCount(freed) - 1
  {
    var n := |freed| - 1;
    if addr == n {
      assert freed[addr := true][..n] == freed[..n];
    } else {
      assert freed[addr := true][..n] == freed[..n][addr := true];
      LiveCountFreed(freed[..n], addr);
    }
  }

  // ---- each step keeps it ----

  lemma NewBlockKeeps(st: Store, b: Block)
    requires Owning(st) && b !in st.arr
    ensures Owning(WithNewBlock(st, b))
    ensures Unused(WithNewBlock(st, b), |st.heap|)
    ensures forall a :: Unused(st, a) ==> Unused(WithNewBlock(st, b), a)
  {
  }

  /** The heap has its old blocks in their places, and the other memories are the same. */
  ghost predicate SameMemories(st: Store, st': Store) {
    st.heap <= st'.heap && st'.frames == st.frames && st'.clump == st.clump && st'.statics == st.statics
  }

  /** st' is st with n more blocks, all unused, and everything else as it was. */
  ghost predicate Extended(st: Store, st': Store, n: nat) {
    && |st'.heap| == |st.heap| + n && |st'.freed| == |st.freed| + n && SameMemories(st, st')
    && st'.locs == st.locs && st.arr.Keys <= st'.arr.Keys
    && (forall b :: b in st.arr ==> st'.arr[b] == st.arr[b])
    && (forall b :: b in st'.arr && b !in st.arr ==> st'.arr[b] == [])
    && (forall a :: 0 <= a < |st.freed| ==> st'.freed[a] == st.freed[a])
    && (forall a: nat :: Unused(st, a) || |st.heap| <= a < |st'.heap| ==> Unused(st', a))
    && LiveCount(st'.freed) == LiveCount(st.freed) + n
  }

  lemma ExtendedOnce(st: Store, st': Store, n: nat, b: Block)
    requires Owning(st') && Extended(st, st', n) && b !in st'.arr
    ensures Owning(WithNewBlock(st', b)) && Extended(st, WithNewBlock(st', b), n + 1)
  {
    NewBlockKeeps(st', b);
    LiveCountNew(st'.freed);
    var st'' := WithNewBlock(st', b);
    forall a: nat | Unused(st, a) || |st.heap| <= a < |st''.heap|
      ensures Unused(st'', a)
    {
      assert a == |st'.heap| || Unused(st', a);
    }
  }

  lemma {:induction false} NewBlocksKeep(st: Store, bs: seq<Block>)
    requires Owning(st) && Distinct(bs) && forall i :: 0 <= i < |bs| ==> bs[i] !in st.arr
    ensures Owning(WithNewBlocks(st, bs)) && Extended(st, WithNewBlocks(st, bs), |bs|)
    ensures WithNewBlocks(st, bs).arr.Keys == st.arr.Keys + (set b | b in bs)
  {
    if bs != [] {
      var init, last := bs[..|bs| - 1], bs[|bs| - 1];
      assert bs == init + [last];
      hide Owning, Extended;
      NewBlocksKeep(st, init);
      assert last !in WithNewBlocks(st, init).arr;
      ExtendedOnce(st, WithNewBlocks(st, init), |init|, last);
    }
  }

  /** Putting in a new object whose locations nothing else owns. */
  lemma InsertKeeps(st: Store, b: Block, i: nat, o: Object, ls: seq<Location>)
    requires Owning(st) && b in st.arr && i <= |st.arr[b]| && o !in st.locs
    requires forall l :: l in ls && l.Dynamic? ==> Unused(st, l.block)
    requires o.range.Some? ==> ls == [o.range.value.loc] && o.range.value.loc.Dynamic?
    ensures Owning(WithObject(st, b, i, o, ls))
  {
  }

  /** No range owns this block. */
  ghost predicate Unowned(st: Store, addr: nat) {
    forall o :: o in st.locs && o.range.Some? ==>
      !(o.range.value.loc.Dynamic? && o.range.value.loc.block == addr)
  }

  /** Deallocating a block through a pointer keeps the invariant if and only if no range owns the block; nothing in
      the code checks that. */
  lemma FreeingKeepsExactlyWhen(st: Store, addr: nat)
    requires Owning(st) && Live(st, addr)
    ensures Owning(WithFreed(st, addr)) <==> Unowned(st, addr)
  {
    var st' := WithFreed(st, addr);
    if o :| o in st.locs && o.range.Some? && o.range.value.loc.Dynamic? && o.range.value.loc.block == addr {
      assert Owns(st, o) && !Owns(st', o);
    } else {
      forall o | o in st'.locs && o.range.Some?
        ensures Owns(st', o)
      {
        assert Owns(st, o);
        assert forall q :: q in st.locs ==> Mentions(st', q, o.range.value.loc.block) ==
                                            Mentions(st, q, o.range.value.loc.block);
      }
    }
  }

  /** Assigning a value to an object keeps the invariant if and only if the heap blocks the value points to exist
      and belong to no range; nothing in the code checks that either. */
  lemma AssigningKeepsExactlyWhen(st: Store, o: Object, ls: seq<Location>)
    requires Owning(st) && o in st.locs && o.range.None?
    ensures Owning(WithValue(st, o, ls)) <==>
            forall l :: l in ls && l.Dynamic? ==> l.block < |st.heap| && Unowned(st, l.block)
  {
    var st' := WithValue(st, o, ls);
    if l, r :| l in ls && l.Dynamic? && r in st.locs && r.range.Some? && r.range.value.loc.Dynamic?
               && r.range.value.loc.block == l.block {
      assert Mentions(st', o, l.block) && !Owns(st', r);
    } else if l :| l in ls && l.Dynamic? && l.block >= |st.heap| {
      assert l in st'.locs[o];
    } else {
      forall r | r in st'.locs && r.range.Some?
        ensures Owns(st', r)
      {
        assert Owns(st, r);
        assert forall q :: q in st.locs && q != o ==> Mentions(st', q, r.range.value.loc.block) ==
                                                      Mentions(st, q, r.range.value.loc.block);
      }
    }
  }

  // ---- putting in several objects that refer to consecutive new blocks ----

  ghost function BlockRef(addr: nat): seq<Location> {
    [Dynamic(addr, Constant(0))]
  }

  ghost function WithObjects(st: Store, b: Block, i: nat, objs: seq<Object>, first: nat): (st': Store)
    requires b in st.arr && i <= |st.arr[b]|
    ensures b in st'.arr && |st'.arr[b]| == |st.arr[b]| + |objs|
  {
    if objs == [] then st
    else
      var n := |objs| - 1;
      WithObject(WithObjects(st, b, i, objs[..n], first), b, i + n, objs[n], BlockRef(first + n))
  }

  ghost predicate RefersTo(o: Object, addr: nat) {
    o.range.Some? ==> o.range.value.loc == Dynamic(addr, Constant(0))
  }

  lemma WithObjectsSnoc(st: Store, b: Block, i: nat, objs: seq<Object>, first: nat, o: Object)
    requires b in st.arr && i <= |st.arr[b]|
    ensures WithObjects(st, b, i, objs + [o], first) ==
            WithObject(WithObjects(st, b, i, objs, first), b, i + |objs|, o, BlockRef(first + |objs|))
  {
  }

  lemma {:induction false} WithObjectsArr(st: Store, b: Block, i: nat, objs: seq<Object>, first: nat)
    requires b in st.arr && i <= |st.arr[b]|
    ensures var st' := WithObjects(st, b, i, objs, first);
            && st'.heap == st.heap && SameMemories(st, st') && st'.freed == st.freed
            && st'.arr == st.arr[b := st.arr[b][..i] + objs + st.arr[b][i..]]
  {
    if objs == [] {
      assert st.arr[b][..i] + [] + st.arr[b][i..] == st.arr[b];
    } else {
      var n := |objs| - 1;
      WithObjectsArr(st, b, i, objs[..n], first);
      InsertAfter(st.arr[b], i, objs[..n], objs[n]);
      assert objs == objs[..n] + [objs[n]];
    }
  }

  /** Each object put in refers to its own block, and the others to what they did. */
  lemma {:induction false} WithObjectsLocs(st: Store, b: Block, i: nat, objs: seq<Object>, first: nat)
    requires b in st.arr && i <= |st.arr[b]| && Distinct(objs)
    ensures var locs := WithObjects(st, b, i, objs, first).locs;
            && (forall o :: o in locs <==> o in st.locs || o in objs)
            && (forall o :: o in st.locs && o !in objs ==> locs[o] == st.locs[o])
            && forall k :: 0 <= k < |objs| ==> locs[objs[k]] == BlockRef(first + k)
  {
    if objs != [] {
      var n := |objs| - 1;
      assert objs == objs[..n] + [objs[n]];
      WithObjectsLocs(st, b, i, objs[..n], first);
    }
  }

  lemma {:induction false} WithObjectsKeys(st: Store, b: Block, i: nat, objs: seq<Object>, first: nat)
    requires b in st.arr && i <= |st.arr[b]|
    ensures WithObjects(st, b, i, objs, first).locs.Keys == st.locs.Keys + Elements(objs)
  {
    if objs != [] {
      var n := |objs| - 1;
      assert objs == objs[..n] + [objs[n]];
      WithObjectsKeys(st, b, i, objs[..n], first);
      assert Elements(objs) == Elements(objs[..n]) + {objs[n]};
    }
  }

  lemma InsertAfter<T>(s: seq<T>, i: nat, init: seq<T>, x: T)
    requires i <= |s|
    ensures var mid := s[..i] + init + s[i..];
            mid[..i + |init|] + [x] + mid[i + |init|..] == s[..i] + (init + [x]) + s[i..]
  {
  }
}
