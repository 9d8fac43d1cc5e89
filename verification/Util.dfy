/** Shared data structures of src/util/util.c: the ordered string map and decimal names. */
module Util {

  datatype Option<+T> = None | Some(value: T)

  datatype Result<+T, +E> = Ok(value: T) | Err(error: E)

  /** One slot of the map; the map keeps its slots in order of first insertion. */
  datatype Entry<+V> = Entry(key: string, value: V)

  ghost predicate Distinct<T>(s: seq<T>) {
    forall i, j :: 0 <= i < j < |s| ==> s[i] != s[j]
  }

  ghost function Elements<T>(s: seq<T>): set<T> {
    set x | x in s
  }

  ghost predicate DistinctKeys<V>(m: seq<Entry<V>>) {
    forall i, j :: 0 <= i < j < |m| ==> m[i].key != m[j].key
  }

  /** The lookups a map answers; the first slot of a key wins. */
  ghost function AsMap<V>(m: seq<Entry<V>>): map<string, V> {
    if m == [] then map[] else AsMap(m[1..])[m[0].key := m[0].value]
  }

  ghost function KeySet<V>(m: seq<Entry<V>>): set<string> {
    AsMap(m).Keys
  }

  /** Position of the first slot with this key, or -1. */
  function Find<V>(m: seq<Entry<V>>, key: string): (r: int)
    ensures -1 <= r < |m|
    ensures r >= 0 ==> m[r].key == key && forall j :: 0 <= j < r ==> m[j].key != key
    ensures r == -1 ==> forall j :: 0 <= j < |m| ==> m[j].key != key
  {
    if m == [] then -1
    else if m[0].key == key then 0
    else
      var r := Find(m[1..], key);
      if r == -1 then -1 else r + 1
  }

  function Lookup<V>(m: seq<Entry<V>>, key: string): Option<V> {
    var i := Find(m, key);
    if i == -1 then None else Some(m[i].value)
  }

  function Put<V>(m: seq<Entry<V>>, key: string, v: V): seq<Entry<V>> {
    var i := Find(m, key);
    if i == -1 then m + [Entry(key, v)] else m[i := Entry(key, v)]
  }

  lemma FindUnique<V>(m: seq<Entry<V>>, i: nat)
    requires DistinctKeys(m) && i < |m|
    ensures Find(m, m[i].key) == i
    ensures Lookup(m, m[i].key) == Some(m[i].value)
  {
  }

  /** Setting a key keeps keys distinct, answers later lookups of that key, and leaves the others alone. */
  lemma PutLookup<V>(m: seq<Entry<V>>, key: string, v: V)
    requires DistinctKeys(m)
    ensures DistinctKeys(Put(m, key, v))
    ensures Lookup(Put(m, key, v), key) == Some(v)
    ensures forall k :: k != key ==> Lookup(Put(m, key, v), k) == Lookup(m, k)
  {
    var r := Put(m, key, v);
    var i := Find(m, key);
    FindUnique(r, if i == -1 then |m| else i);
    forall k | k != key
      ensures Lookup(r, k) == Lookup(m, k)
    {
      var j := Find(m, k);
      if j != -1 {
        FindUnique(r, j);
      }
    }
  }

  lemma {:induction false} LookupAsMap<V>(m: seq<Entry<V>>, key: string)
    ensures Lookup(m, key) == if key in AsMap(m) then Some(AsMap(m)[key]) else None
  {
    if m != [] && m[0].key != key {
      LookupAsMap(m[1..], key);
    }
  }

  lemma KeyAt<V>(m: seq<Entry<V>>, i: nat)
    requires i < |m|
    ensures m[i].key in KeySet(m)
  {
    LookupAsMap(m, m[i].key);
  }

  lemma PutAsMap<V>(m: seq<Entry<V>>, key: string, v: V)
    requires DistinctKeys(m)
    ensures AsMap(Put(m, key, v)) == AsMap(m)[key := v]
  {
    PutLookup(m, key, v);
    forall k
      ensures k in AsMap(Put(m, key, v)) <==> k in AsMap(m)[key := v]
      ensures k in AsMap(Put(m, key, v)) ==> AsMap(Put(m, key, v))[k] == AsMap(m)[key := v][k]
    {
      LookupAsMap(Put(m, key, v), k);
      LookupAsMap(m, k);
    }
  }

  lemma PutKeySet<V>(m: seq<Entry<V>>, key: string, v: V)
    requires DistinctKeys(m)
    ensures KeySet(Put(m, key, v)) == KeySet(m) + {key}
  {
    PutAsMap(m, key, v);
  }

  lemma LookupInKeySet<V>(m: seq<Entry<V>>, key: string)
    ensures Lookup(m, key).Some? <==> key in KeySet(m)
  {
    LookupAsMap(m, key);
  }

  lemma AppendKey<V>(m: seq<Entry<V>>, e: Entry<V>)
    requires DistinctKeys(m) && forall j :: 0 <= j < |m| ==> m[j].key != e.key
    ensures KeySet(m + [e]) == KeySet(m) + {e.key} && e.key !in KeySet(m)
  {
    LookupInKeySet(m, e.key);
    assert Put(m, e.key, e.value) == m + [e];
    PutKeySet(m, e.key, e.value);
  }

  /** Walking a map front to back meets each key once. */
  lemma NextKey<V>(m: seq<Entry<V>>, i: nat)
    requires DistinctKeys(m) && i < |m|
    ensures m[i].key in AsMap(m) && AsMap(m)[m[i].key] == m[i].value
    ensures m[i].key !in KeySet(m[..i])
    ensures KeySet(m[..i + 1]) == KeySet(m[..i]) + {m[i].key}
  {
    hide AsMap, KeySet, Find;
    FindUnique(m, i);
    LookupAsMap(m, m[i].key);
    assert m[..i + 1] == m[..i] + [m[i]];
    AppendKey(m[..i], m[i]);
  }

  /** src/util/util.c's struct map: a growable array of entries searched front to back. */
  class Map<V> {
    var entry: seq<Entry<V>>

    ghost predicate Valid()
      reads this
    {
      DistinctKeys(entry)
    }

    constructor ()
      ensures Valid() && entry == []
    {
      entry := [];
    }

    method GetIndex(key: string) returns (r: int)
      ensures r == Find(entry, key)
    {
      for i := 0 to |entry|
        invariant forall j :: 0 <= j < i ==> entry[j].key != key
      {
        if entry[i].key == key {
          return i;
        }
      }
      return -1;
    }

    method Get(key: string) returns (r: Option<V>)
      ensures r == Lookup(entry, key)
    {
      var i := GetIndex(key);
      r := if i != -1 then Some(entry[i].value) else None;
    }

    method Set(key: string, v: V)
      requires Valid()
      modifies this
      ensures Valid() && entry == Put(old(entry), key, v)
    {
      PutLookup(entry, key, v);
      var i := GetIndex(key);
      if i >= 0 {
        entry := entry[i := Entry(key, v)];
        return;
      }
      entry := entry + [Entry(key, v)];
    }
  }

  // ---- decimal rendering, as printed by "%d" for non-negative numbers ----

  function Digit(d: nat): char
    requires d < 10
  {
    "0123456789"[d]
  }

  function NatStr(n: nat): (s: string)
    ensures |s| > 0
  {
    if n < 10 then [Digit(n)] else NatStr(n / 10) + [Digit(n % 10)]
  }

  /** The number a string of decimal digits stands for. */
  function ReadNat(s: string): int {
    if s == [] then 0 else 10 * ReadNat(s[..|s| - 1]) + (s[|s| - 1] as int - '0' as int)
  }

  predicate Digits(s: string) {
    forall i :: 0 <= i < |s| ==> '0' <= s[i] <= '9'
  }

  /** The rendering is the number's, in digits, and has no leading zero. */
  lemma {:induction false} NatStrReads(n: nat)
    ensures ReadNat(NatStr(n)) == n && Digits(NatStr(n)) && (NatStr(n)[0] == '0' ==> n == 0)
  {
    if n >= 10 {
      NatStrReads(n / 10);
      assert NatStr(n)[..|NatStr(n)| - 1] == NatStr(n / 10);
    } else {
      assert [Digit(n)][..0] == [];
    }
  }

  lemma NatStrInjective(a: nat, b: nat)
    requires NatStr(a) == NatStr(b)
    ensures a == b
  {
    NatStrReads(a);
    NatStrReads(b);
  }
}
