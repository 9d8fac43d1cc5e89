/** Symbolic constants and their names (src/state/heap.c): `$n` persists, `#n` is dropped when a state is
    undeclared for comparison. */
module VConst {
  import opened Util

  function Name(persist: bool, i: nat): string {
    [if persist then '$' else '#'] + NatStr(i)
  }

  /** A name is its mark and a decimal number. */
  lemma NameReads(persist: bool, i: nat)
    ensures var s := Name(persist, i);
            |s| > 1 && s[0] == (if persist then '$' else '#') && Digits(s[1..]) && ReadNat(s[1..]) == i
  {
    NatStrReads(i);
    assert Name(persist, i)[1..] == NatStr(i);
  }

  lemma NameInjective(b: bool, i: nat, c: bool, j: nat)
    requires Name(b, i) == Name(c, j)
    ensures b == c && i == j
  {
    NameReads(b, i);
    NameReads(c, j);
  }

  /** The names in use are exactly `$0` to `$(p-1)`, all persistent, and `#0` to `#(q-1)`, none persistent. */
  ghost predicate Named(m: map<string, bool>, p: nat, q: nat) {
    && (forall k :: k in m ==> exists i: nat :: k == Name(m[k], i) && i < if m[k] then p else q)
    && forall b: bool, i: nat :: i < (if b then p else q) ==> Name(b, i) in m && m[Name(b, i)] == b
  }

  lemma NextNameIsFresh(m: map<string, bool>, p: nat, q: nat, b: bool)
    requires Named(m, p, q)
    ensures var name := Name(b, if b then p else q);
            && name !in m
            && Named(m[name := b], if b then p + 1 else p, if b then q else q + 1)
  {
    var next := if b then p else q;
    var name := Name(b, next);
    if name in m {
      var i: nat :| name == Name(m[name], i) && i < if m[name] then p else q;
      NameInjective(b, next, m[name], i);
      assert false;
    }
    var m', p', q' := m[name := b], if b then p + 1 else p, if b then q else q + 1;
    forall k | k in m'
      ensures exists i: nat :: k == Name(m'[k], i) && i < if m'[k] then p' else q'
    {
      if k != name {
        var i: nat :| k == Name(m[k], i) && i < if m[k] then p else q;
        assert k == Name(m'[k], i);
      }
    }
    forall c: bool, i: nat | i < if c then p' else q'
      ensures Name(c, i) in m' && m'[Name(c, i)] == c
    {
      if Name(c, i) == name {
        NameInjective(c, i, b, next);
      }
    }
  }

  function CountTrue(m: seq<Entry<bool>>): nat {
    if m == [] then 0 else CountTrue(m[..|m| - 1]) + if m[|m| - 1].value then 1 else 0
  }

  ghost predicate SameKeys<V>(m: seq<Entry<V>>, b: seq<Entry<bool>>) {
    |m| == |b| && forall i :: 0 <= i < |m| ==> m[i].key == b[i].key
  }

  /** The three maps describe the same constants, numbered consecutively. */
  ghost predicate Numbered<V>(m: seq<Entry<V>>, c: seq<Entry<string>>, b: seq<Entry<bool>>) {
    && DistinctKeys(m) && DistinctKeys(c) && DistinctKeys(b)
    && SameKeys(m, b)
    && CountTrue(b) <= |b|
    && Named(AsMap(b), CountTrue(b), |b| - CountTrue(b))
  }

  /** The persistent part of a map. */
  ghost function Persistent<V>(m: map<string, V>, persist: map<string, bool>): map<string, V> {
    map k | k in m && k in persist && persist[k] :: m[k]
  }

  class VConsts<V> {
    var varmap: seq<Entry<V>>
    var comment: seq<Entry<string>>
    var persist: seq<Entry<bool>>

    ghost predicate Valid()
      reads this
    {
      Numbered(varmap, comment, persist)
    }

    ghost function Persisting(): nat
      reads this
    {
      CountTrue(persist)
    }

    ghost function Passing(): int
      reads this
    {
      |persist| - CountTrue(persist)
    }

    constructor ()
      ensures Valid() && varmap == [] && comment == [] && persist == []
    {
      varmap, comment, persist := [], [], [];
    }

    method CountPersisting() returns (n: nat)
      ensures n == CountTrue(persist)
    {
      n := 0;
      for i := 0 to |persist|
        invariant n == CountTrue(persist[..i])
      {
        assert persist[..i + 1][..i] == persist[..i];
        if persist[i].value {
          n := n + 1;
        }
      }
      assert persist[..|persist|] == persist;
    }

    method Id(isPersist: bool) returns (s: string)
      requires Valid()
      ensures s == Name(isPersist, if isPersist then Persisting() else Passing())
    {
      var npersist := CountPersisting();
      s := Name(isPersist, if isPersist then npersist else |varmap| - npersist);
    }

    /** The returned name was not in use, so no entry is overwritten. */
    method Declare(val: V, note: Option<string>, isPersist: bool) returns (s: string)
      requires Valid()
      modifies this
      ensures Valid()
      ensures s !in old(AsMap(varmap))
      ensures |s| > 1 && s[0] == (if isPersist then '$' else '#') && Digits(s[1..])
      ensures ReadNat(s[1..]) == if isPersist then old(Persisting()) else old(Passing())
      ensures AsMap(varmap) == old(AsMap(varmap))[s := val]
      ensures AsMap(persist) == old(AsMap(persist))[s := isPersist]
      ensures AsMap(comment) == if note.Some? then old(AsMap(comment))[s := note.value] else old(AsMap(comment))
      ensures Persisting() == old(Persisting()) + (if isPersist then 1 else 0)
      ensures Passing() == old(Passing()) + (if isPersist then 0 else 1)
    {
      hide AsMap, Put, DistinctKeys, SameKeys, Named, CountTrue, Name;
      s := Id(isPersist);
      NameReads(isPersist, if isPersist then Persisting() else Passing());
      DeclareKeeps(varmap, comment, persist, s, val, note, isPersist);
      varmap := Put(varmap, s, val);
      if note.Some? {
        comment := Put(comment, s, note.value);
      }
      persist := Put(persist, s, isPersist);
    }

    /** Keeps all and only the persistent names, with their values and comments. */
    method Undeclare()
      requires Valid()
      modifies this
      ensures Valid() && Passing() == 0 && Persisting() == old(Persisting())
      ensures AsMap(varmap) == old(Persistent(AsMap(varmap), AsMap(persist)))
      ensures AsMap(persist) == old(Persistent(AsMap(persist), AsMap(persist)))
      ensures AsMap(comment) == old(Persistent(AsMap(comment), AsMap(persist)))
    {
      KeptNothing(varmap, comment, persist);
      var m, c, b := FilterPersistent(varmap, comment, persist);
      KeptAll(varmap, comment, persist, m, c, b);
      varmap, comment, persist := m, c, b;
    }
  }

  /** The loop of vconst_undeclare, filling new maps with the persistent entries. */
  method FilterPersistent<V>(m: seq<Entry<V>>, c: seq<Entry<string>>, b: seq<Entry<bool>>)
    returns (m': seq<Entry<V>>, c': seq<Entry<string>>, b': seq<Entry<bool>>)
    requires DistinctKeys(m) && DistinctKeys(b) && SameKeys(m, b)
    requires KeptUpTo(m, c, b, 0, [], [], [])
    ensures KeptUpTo(m, c, b, |m|, m', c', b')
  {
    m', c', b' := [], [], [];
    for i := 0 to |m|
      invariant KeptUpTo(m, c, b, i, m', c', b')
    {
      KeptStep(m, c, b, i, m', c', b');
      var key := m[i].key;
      if Lookup(b, key) == Some(false) {
        continue;
      }
      m' := Put(m', key, Lookup(m, key).value);
      var note := Lookup(c, key);
      if note.Some? {
        c' := Put(c', key, note.value);
      }
      b' := Put(b', key, true);
    }
  }

  lemma FreshKeyAppends<V>(m: seq<Entry<V>>, b: seq<Entry<bool>>, s: string, val: V, flag: bool)
    requires DistinctKeys(m) && DistinctKeys(b) && SameKeys(m, b) && s !in AsMap(b)
    ensures s !in AsMap(m)
    ensures AsMap(Put(m, s, val)) == AsMap(m)[s := val] && AsMap(Put(b, s, flag)) == AsMap(b)[s := flag]
    ensures SameKeys(Put(m, s, val), Put(b, s, flag))
    ensures |Put(b, s, flag)| == |b| + 1
    ensures CountTrue(Put(b, s, flag)) == CountTrue(b) + if flag then 1 else 0
  {
    PutAsMap(m, s, val);
    PutAsMap(b, s, flag);
    LookupAsMap(b, s);
    LookupAsMap(m, s);
    assert Find(b, s) == -1;
    assert Find(m, s) == -1;
    assert (b + [Entry(s, flag)])[..|b|] == b;
  }

  lemma PutBoth<V>(m: seq<Entry<V>>, s: string, val: V)
    requires DistinctKeys(m)
    ensures DistinctKeys(Put(m, s, val)) && AsMap(Put(m, s, val)) == AsMap(m)[s := val]
  {
    PutLookup(m, s, val);
    PutAsMap(m, s, val);
  }

  lemma FreshNumbered(b: seq<Entry<bool>>, s: string, flag: bool)
    requires DistinctKeys(b) && CountTrue(b) <= |b| && Named(AsMap(b), CountTrue(b), |b| - CountTrue(b))
    requires s == Name(flag, if flag then CountTrue(b) else |b| - CountTrue(b))
    ensures s !in AsMap(b) && DistinctKeys(Put(b, s, flag))
    ensures var b' := Put(b, s, flag);
            CountTrue(b') <= |b'| && Named(AsMap(b'), CountTrue(b'), |b'| - CountTrue(b'))
  {
    hide Named, AsMap, Put, DistinctKeys, CountTrue;
    NextNameIsFresh(AsMap(b), CountTrue(b), |b| - CountTrue(b), flag);
    FreshKeyAppends(b, b, s, flag, flag);
    PutBoth(b, s, flag);
  }

  lemma DeclareKeeps<V>(m: seq<Entry<V>>, c: seq<Entry<string>>, b: seq<Entry<bool>>, s: string, val: V,
                        note: Option<string>, flag: bool)
    requires Numbered(m, c, b) && s == Name(flag, if flag then CountTrue(b) else |b| - CountTrue(b))
    ensures s !in AsMap(m)
    ensures Numbered(Put(m, s, val), if note.Some? then Put(c, s, note.value) else c, Put(b, s, flag))
    ensures AsMap(Put(m, s, val)) == AsMap(m)[s := val] && AsMap(Put(b, s, flag)) == AsMap(b)[s := flag]
    ensures note.Some? ==> AsMap(Put(c, s, note.value)) == AsMap(c)[s := note.value]
    ensures |Put(b, s, flag)| == |b| + 1
    ensures CountTrue(Put(b, s, flag)) == CountTrue(b) + if flag then 1 else 0
  {
    FreshNumbered(b, s, flag);
    FreshKeyAppends(m, b, s, val, flag);
    PutBoth(m, s, val);
    if note.Some? {
      PutBoth(c, s, note.value);
    }
  }

  // ---- what undeclaring has kept after visiting the keys in `done` ----

  ghost predicate KeptPersistent<V>(m: map<string, V>, persist: map<string, bool>, done: set<string>,
                                    m': map<string, V>) {
    && (forall k :: k in m' <==> k in m && k in done && k in persist && persist[k])
    && forall k :: k in m' && k in m ==> m'[k] == m[k]
  }

  ghost predicate KeptUpTo<V>(m: seq<Entry<V>>, c: seq<Entry<string>>, b: seq<Entry<bool>>, i: nat,
                              m': seq<Entry<V>>, c': seq<Entry<string>>, b': seq<Entry<bool>>) {
    && i <= |m| == |b|
    && DistinctKeys(m') && DistinctKeys(c') && DistinctKeys(b')
    && SameKeys(m', b') && |b'| == CountTrue(b') == CountTrue(b[..i])
    && KeptPersistent(AsMap(m), AsMap(b), KeySet(b[..i]), AsMap(m'))
    && KeptPersistent(AsMap(b), AsMap(b), KeySet(b[..i]), AsMap(b'))
    && KeptPersistent(AsMap(c), AsMap(b), KeySet(b[..i]), AsMap(c'))
  }

  lemma KeptNothing<V>(m: seq<Entry<V>>, c: seq<Entry<string>>, b: seq<Entry<bool>>)
    requires |m| == |b|
    ensures KeptUpTo(m, c, b, 0, [], [], [])
  {
  }

  lemma KeptPut<V>(m: map<string, V>, persist: map<string, bool>, done: set<string>, m': seq<Entry<V>>, key: string)
    requires DistinctKeys(m') && KeptPersistent(m, persist, done, AsMap(m'))
    requires key in m && key in persist && persist[key]
    ensures DistinctKeys(Put(m', key, m[key]))
    ensures KeptPersistent(m, persist, done + {key}, AsMap(Put(m', key, m[key])))
  {
    PutBoth(m', key, m[key]);
  }

  lemma KeptSkip<V>(m: map<string, V>, persist: map<string, bool>, done: set<string>, m': map<string, V>, key: string)
    requires KeptPersistent(m, persist, done, m')
    requires key !in m || key !in persist || !persist[key]
    ensures KeptPersistent(m, persist, done + {key}, m')
  {
  }

  lemma KeptStep<V>(m: seq<Entry<V>>, c: seq<Entry<string>>, b: seq<Entry<bool>>, i: nat,
                    m': seq<Entry<V>>, c': seq<Entry<string>>, b': seq<Entry<bool>>)
    requires DistinctKeys(m) && DistinctKeys(b) && SameKeys(m, b) && i < |m|
    requires KeptUpTo(m, c, b, i, m', c', b')
    ensures var key := m[i].key;
            && Lookup(b, key) == Some(b[i].value) && Lookup(m, key) == Some(m[i].value)
            && if !b[i].value then KeptUpTo(m, c, b, i + 1, m', c', b')
               else KeptUpTo(m, c, b, i + 1, Put(m', key, m[i].value),
                             if Lookup(c, key).Some? then Put(c', key, Lookup(c, key).value) else c',
                             Put(b', key, true))
  {
    var key, done := m[i].key, KeySet(b[..i]);
    NextKey(m, i);
    NextKey(b, i);
    FindUnique(m, i);
    FindUnique(b, i);
    LookupAsMap(c, key);
    assert b[..i + 1][..i] == b[..i];
    hide KeptPersistent, Put, AsMap, KeySet, DistinctKeys, Find;
    if b[i].value {
      KeptPut(AsMap(m), AsMap(b), done, m', key);
      KeptPut(AsMap(b), AsMap(b), done, b', key);
      if Lookup(c, key).Some? {
        KeptPut(AsMap(c), AsMap(b), done, c', key);
      } else {
        KeptSkip(AsMap(c), AsMap(b), done, AsMap(c'), key);
      }
      FreshKeyAppends(m', b', key, m[i].value, true);
    } else {
      KeptSkip(AsMap(m), AsMap(b), done, AsMap(m'), key);
      KeptSkip(AsMap(b), AsMap(b), done, AsMap(b'), key);
      KeptSkip(AsMap(c), AsMap(b), done, AsMap(c'), key);
    }
  }

  lemma KeptIsPersistent<V>(m: map<string, V>, persist: map<string, bool>, m': map<string, V>)
    requires KeptPersistent(m, persist, persist.Keys, m')
    ensures m' == Persistent(m, persist)
  {
  }

  lemma KeptAll<V>(m: seq<Entry<V>>, c: seq<Entry<string>>, b: seq<Entry<bool>>,
                   m': seq<Entry<V>>, c': seq<Entry<string>>, b': seq<Entry<bool>>)
    requires SameKeys(m, b) && KeptUpTo(m, c, b, |m|, m', c', b')
    requires CountTrue(b) <= |b| && Named(AsMap(b), CountTrue(b), |b| - CountTrue(b))
    ensures |b'| == CountTrue(b') == CountTrue(b) && Named(AsMap(b'), CountTrue(b), 0)
    ensures AsMap(m') == Persistent(AsMap(m), AsMap(b)) && AsMap(b') == Persistent(AsMap(b), AsMap(b))
    ensures AsMap(c') == Persistent(AsMap(c), AsMap(b))
  {
    assert b[..|b|] == b;
    KeptIsPersistent(AsMap(m), AsMap(b), AsMap(m'));
    KeptIsPersistent(AsMap(b), AsMap(b), AsMap(b'));
    KeptIsPersistent(AsMap(c), AsMap(b), AsMap(c'));
    NamedPersistent(AsMap(b), AsMap(b'), CountTrue(b), |b| - CountTrue(b));
  }

  lemma NamedPersistent(m: map<string, bool>, m': map<string, bool>, p: nat, q: nat)
    requires Named(m, p, q)
    requires forall k :: k in m' <==> k in m && m[k]
    requires forall k :: k in m' ==> m'[k]
    ensures Named(m', p, 0)
  {
  }
}
