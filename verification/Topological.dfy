/** Ordering functions so that callees come first (src/ast/topological.c): Kahn's algorithm over the
    call graph. */
module Topological {
  import opened Util
  import opened CallGraph

  /** src/util/util.c's struct string_arr. */
  class StringArr {
    var s: seq<string>

    constructor ()
      ensures s == []
    {
      s := [];
    }

    method Append(x: string)
      modifies this
      ensures s == old(s) + [x]
    {
      s := s + [x];
    }

    method Deque() returns (x: string)
      requires |s| > 0
      modifies this
      ensures old(s) == [x] + s
    {
      x := s[0];
      for i := 0 to |s| - 1
        invariant |s| == |old(s)|
        invariant forall j :: 0 <= j < i ==> s[j] == old(s)[j + 1]
        invariant forall j :: i <= j < |s| ==> s[j] == old(s)[j]
      {
        s := s[i := s[i + 1]];
      }
      s := s[..|s| - 1];
    }
  }

  method Contains(arr: seq<string>, x: string) returns (b: bool)
    ensures b <==> x in arr
  {
    for i := 0 to |arr|
      invariant x !in arr[..i]
    {
      if x == arr[i] {
        return true;
      }
    }
    return false;
  }

  // ---- graphs ----

  /** The nodes with what they depend on. */
  type DepMap = map<string, seq<string>>

  function Deps(g: DepMap, k: string): seq<string> {
    if k in g then g[k] else []
  }

  /** Every dependency is a node and is listed once. */
  ghost predicate ClosedGraph(g: DepMap) {
    && (forall k :: k in g ==> Distinct(g[k]))
    && forall k, d :: k in g && d in g[k] ==> d in g
  }

  /** The i-th move of w goes from a node to one of its dependencies. */
  ghost predicate Move(g: DepMap, w: seq<string>, i: int) {
    0 <= i < |w| - 1 && w[i + 1] in Deps(g, w[i])
  }

  /** A closed walk along dependencies; a node listing itself is one of length 1. */
  ghost predicate Cycle(g: DepMap, c: seq<string>) {
    && |c| > 0
    && (forall i :: 0 <= i < |c| - 1 ==> Move(g, c, i))
    && c[0] in Deps(g, c[|c| - 1])
  }

  ghost predicate HasCycle(g: DepMap) {
    exists c :: Cycle(g, c)
  }

  ghost predicate Before(order: seq<string>, d: string, i: nat) {
    exists j :: 0 <= j < i && j < |order| && order[j] == d
  }

  /** Each node once, every dependency strictly earlier. */
  ghost predicate Ordered(g: DepMap, order: seq<string>) {
    && Distinct(order)
    && (forall k :: k in order ==> k in g)
    && forall i, d :: 0 <= i < |order| && d in Deps(g, order[i]) ==> Before(order, d, i)
  }

  ghost predicate TopologicalSort(g: DepMap, order: seq<string>) {
    Ordered(g, order) && forall k :: k in g ==> k in order
  }

  // ---- pending dependencies ----

  /** How many of ds are not output yet. */
  function Pending(ds: seq<string>, done: seq<string>): nat {
    if ds == [] then 0 else (if ds[0] in done then 0 else 1) + Pending(ds[1..], done)
  }

  lemma {:induction false} PendingStart(ds: seq<string>)
    ensures Pending(ds, []) == |ds|
  {
    if ds != [] {
      PendingStart(ds[1..]);
    }
  }

  lemma {:induction false} PendingZero(ds: seq<string>, done: seq<string>)
    ensures Pending(ds, done) == 0 <==> forall d :: d in ds ==> d in done
  {
    if ds != [] {
      PendingZero(ds[1..], done);
      assert forall d :: d in ds <==> d == ds[0] || d in ds[1..];
    }
  }

  /** Outputting one more node lowers the count by exactly one where it is listed: this is where the
      absence of duplicates matters. */
  lemma {:induction false} PendingOutput(ds: seq<string>, done: seq<string>, x: string)
    requires Distinct(ds) && x !in done
    ensures Pending(ds, done + [x]) == Pending(ds, done) - if x in ds then 1 else 0
  {
    if ds != [] {
      PendingOutput(ds[1..], done, x);
      assert ds == [ds[0]] + ds[1..];
    }
  }

  // ---- a stuck set contains a cycle ----

  ghost predicate Stuck(g: DepMap, left: set<string>) {
    left != {} && forall k {:trigger Deps(g, k)} :: k in left ==> exists d :: d in Deps(g, k) && d in left
  }

  ghost predicate Walk(g: DepMap, left: set<string>, w: seq<string>) {
    && (forall i :: 0 <= i < |w| ==> w[i] in left)
    && forall i :: 0 <= i < |w| - 1 ==> Move(g, w, i)
  }

  lemma {:induction false} LongWalk(g: DepMap, left: set<string>, n: nat) returns (w: seq<string>)
    requires Stuck(g, left)
    ensures |w| == n + 1 && Walk(g, left, w)
  {
    if n == 0 {
      var k :| k in left;
      w := [k];
    } else {
      var v := LongWalk(g, left, n - 1);
      var d :| d in Deps(g, v[n - 1]) && d in left;
      w := v + [d];
      forall i | 0 <= i < |w| - 1
        ensures Move(g, w, i)
      {
        assert i < n - 1 ==> Move(g, v, i);
      }
    }
  }

  /** More picks than elements repeat one. */
  lemma {:induction false} Pigeonhole(left: set<string>, w: seq<string>)
    requires |w| > |left| && forall i :: 0 <= i < |w| ==> w[i] in left
    ensures exists i, j :: 0 <= i < j < |w| && w[i] == w[j]
    decreases |w|
  {
    var n := |w| - 1;
    if i :| 0 <= i < n && w[i] == w[n] {
    } else {
      Pigeonhole(left - {w[n]}, w[..n]);
      var i, j :| 0 <= i < j < n && w[..n][i] == w[..n][j];
      assert w[i] == w[j];
    }
  }

  lemma StuckHasCycle(g: DepMap, left: set<string>)
    requires Stuck(g, left)
    ensures HasCycle(g)
  {
    var w := LongWalk(g, left, |left|);
    Pigeonhole(left, w);
    var i, j :| 0 <= i < j < |w| && w[i] == w[j];
    var c := w[i..j];
    forall x | 0 <= x < |c| - 1
      ensures Move(g, c, x)
    {
      assert Move(g, w, i + x);
    }
    assert Move(g, w, j - 1);
    assert Cycle(g, c);
  }

  function Position(order: seq<string>, k: string): (i: nat)
    requires k in order
    ensures i < |order| && order[i] == k
  {
    if order[0] == k then 0 else 1 + Position(order[1..], k)
  }

  lemma DependencyIsEarlier(g: DepMap, order: seq<string>, k: string, d: string)
    requires Ordered(g, order) && k in order && d in Deps(g, k)
    ensures d in order && Position(order, d) < Position(order, k)
  {
  }

  lemma {:induction false} CycleDescends(g: DepMap, order: seq<string>, c: seq<string>, i: nat)
    requires TopologicalSort(g, order) && i < |c|
    requires c[0] in order
    requires forall x :: 0 <= x < |c| - 1 ==> Move(g, c, x)
    ensures c[i] in order && Position(order, c[i]) <= Position(order, c[0]) - i
  {
    if i > 0 {
      CycleDescends(g, order, c, i - 1);
      assert Move(g, c, i - 1);
      DependencyIsEarlier(g, order, c[i - 1], c[i]);
    }
  }

  lemma DepIsNode(g: DepMap, k: string, d: string)
    requires ClosedGraph(g) && d in Deps(g, k)
    ensures d in g
  {
  }

  /** A graph with an order has no cycle. */
  lemma SortedIsAcyclic(g: DepMap, order: seq<string>)
    requires ClosedGraph(g) && TopologicalSort(g, order)
    ensures !HasCycle(g)
  {
    if HasCycle(g) {
      var c :| Cycle(g, c);
      DepIsNode(g, c[|c| - 1], c[0]);
      CycleDescends(g, order, c, |c| - 1);
      DependencyIsEarlier(g, order, c[|c| - 1], c[0]);
    }
  }

  // ---- the imperative code ----

  /** What calculate_indegrees computes: one slot per node, holding its number of dependencies. */
  ghost predicate Indegrees(g: DepMap, ind: seq<Entry<int>>) {
    && DistinctKeys(ind) && KeySet(ind) == g.Keys
    && forall i :: 0 <= i < |ind| ==> ind[i].value == |Deps(g, ind[i].key)|
  }

  ghost predicate AllZero(ind: seq<Entry<int>>) {
    forall i :: 0 <= i < |ind| ==> ind[i].value == 0
  }

  lemma PutZero(ind: seq<Entry<int>>, key: string)
    requires DistinctKeys(ind) && AllZero(ind)
    ensures AllZero(Put(ind, key, 0)) && KeySet(Put(ind, key, 0)) == KeySet(ind) + {key}
  {
    PutAsMap(ind, key, 0);
  }

  /** Sets a count to 0 unless the map already has it. */
  method InitOne(ind: Map<int>, key: string) returns (present: bool)
    requires ind.Valid() && AllZero(ind.entry)
    modifies ind
    ensures ind.Valid() && AllZero(ind.entry) && KeySet(ind.entry) == old(KeySet(ind.entry)) + {key}
  {
    var r := ind.Get(key);
    LookupAsMap(ind.entry, key);
    present := r.Some?;
    if !present {
      PutZero(ind.entry, key);
      ind.Set(key, 0);
    }
  }

  method InitIndegrees(g: Map<seq<string>>) returns (ind: Map<int>)
    requires g.Valid() && ClosedGraph(AsMap(g.entry))
    ensures fresh(ind) && ind.Valid() && KeySet(ind.entry) == KeySet(g.entry) && AllZero(ind.entry)
  {
    ind := new Map();
    var es := g.entry;
    for i := 0 to |es|
      invariant ind.Valid() && AllZero(ind.entry)
      invariant KeySet(es[..i]) <= KeySet(ind.entry) <= KeySet(es)
    {
      NextKey(es, i);
      var present := InitOne(ind, es[i].key);
      if present {
        continue;
      }
      for j := 0 to |es[i].value|
        invariant ind.Valid() && AllZero(ind.entry)
        invariant KeySet(es[..i + 1]) <= KeySet(ind.entry) <= KeySet(es)
      {
        DepIsNode(AsMap(es), es[i].key, es[i].value[j]);
        var known := InitOne(ind, es[i].value[j]);
      }
    }
    assert es[..|es|] == es;
  }

  /** One increment for each listed dependency. */
  method CountDeps(ind: Map<int>, i: nat, arr: seq<string>)
    requires ind.Valid() && i < |ind.entry|
    modifies ind
    ensures ind.Valid()
    ensures ind.entry == old(ind.entry)[i := Entry(old(ind.entry)[i].key, old(ind.entry)[i].value + |arr|)]
  {
    var key := ind.entry[i].key;
    for j := 0 to |arr|
      invariant ind.Valid()
      invariant ind.entry == old(ind.entry)[i := Entry(key, old(ind.entry)[i].value + j)]
    {
      FindUnique(ind.entry, i);
      var count := ind.Get(key);
      ind.Set(key, count.value + 1);
    }
  }

  method CalculateIndegrees(g: Map<seq<string>>) returns (ind: Map<int>)
    requires g.Valid() && ClosedGraph(AsMap(g.entry))
    ensures fresh(ind) && ind.Valid() && Indegrees(AsMap(g.entry), ind.entry)
  {
    ind := InitIndegrees(g);
    ghost var zero := ind.entry;
    for i := 0 to |ind.entry|
      invariant ind.Valid() && SameNodes(ind.entry, zero)
      invariant forall k :: 0 <= k < i ==> ind.entry[k].value == |Deps(AsMap(g.entry), zero[k].key)|
      invariant forall k :: i <= k < |zero| ==> ind.entry[k].value == 0
    {
      var arr := g.Get(ind.entry[i].key);
      LookupAsMap(g.entry, ind.entry[i].key);
      if arr == None {
        continue;
      }
      CountDeps(ind, i, arr.value);
    }
    SameNodesSameSet(ind.entry, zero);
  }

  ghost predicate SameNodes(a: seq<Entry<int>>, b: seq<Entry<int>>) {
    |a| == |b| && forall i :: 0 <= i < |a| ==> a[i].key == b[i].key
  }

  lemma {:induction false} SameNodesSameSet(a: seq<Entry<int>>, b: seq<Entry<int>>)
    requires SameNodes(a, b)
    ensures KeySet(a) == KeySet(b)
  {
    if a != [] {
      SameNodesSameSet(a[1..], b[1..]);
    }
  }

  method BuildIndegreeZero(ind: Map<int>) returns (zero: StringArr)
    requires ind.Valid()
    ensures fresh(zero) && Distinct(zero.s)
    ensures forall k :: k in zero.s <==> Lookup(ind.entry, k) == Some(0)
  {
    zero := new StringArr();
    var es := ind.entry;
    for i := 0 to |es|
      invariant Distinct(zero.s)
      invariant forall k :: k in zero.s <==> Lookup(es, k) == Some(0) && Find(es, k) < i
    {
      FindUnique(es, i);
      var val := ind.Get(es[i].key);
      if val == Some(0) {
        zero.Append(es[i].key);
      }
    }
  }

  // ---- the invariant of the main loop ----

  /** The dependencies of k not output yet, where only the nodes in `told` know of the newest output. */
  function Waiting(g: DepMap, k: string, order: seq<string>, order': seq<string>, told: set<string>): nat {
    Pending(Deps(g, k), if k in told then order' else order)
  }

  ghost predicate Counting(g: DepMap, counts: map<string, int>, order: seq<string>, order': seq<string>,
                           told: set<string>) {
    && counts.Keys == g.Keys
    && forall k :: k in g ==> counts[k] == Waiting(g, k, order, order', told)
  }

  /** Exactly the nodes with nothing pending are output or queued, each once. */
  ghost predicate Queued(g: DepMap, queue: seq<string>, order: seq<string>, order': seq<string>, told: set<string>) {
    && Distinct(order') && Distinct(queue)
    && (forall k :: k in order' ==> k !in queue)
    && forall k :: k in order' || k in queue <==> k in g && Waiting(g, k, order, order', told) == 0
  }

  ghost predicate Sorting(g: DepMap, counts: map<string, int>, queue: seq<string>, order: seq<string>) {
    Counting(g, counts, order, order, {}) && Queued(g, queue, order, order, {}) && Ordered(g, order)
  }

  lemma StartSorting(g: DepMap, ind: seq<Entry<int>>, queue: seq<string>)
    requires Indegrees(g, ind) && Distinct(queue)
    requires forall k :: k in queue <==> Lookup(ind, k) == Some(0)
    ensures Sorting(g, AsMap(ind), queue, [])
  {
    forall k
      ensures k in g ==> AsMap(ind)[k] == Waiting(g, k, [], [], {})
      ensures Lookup(ind, k) == Some(0) <==> k in g && AsMap(ind)[k] == 0
    {
      PendingStart(Deps(g, k));
      LookupAsMap(ind, k);
    }
  }

  lemma OutputIsOrdered(g: DepMap, order: seq<string>, curr: string)
    requires Ordered(g, order) && curr !in order && curr in g
    requires forall d :: d in Deps(g, curr) ==> d in order
    ensures Ordered(g, order + [curr])
  {
    var order' := order + [curr];
    forall i, d | 0 <= i < |order'| && d in Deps(g, order'[i])
      ensures Before(order', d, i)
    {
      if i < |order| {
        assert Before(order, d, i);
      }
      var j :| 0 <= j < i && j < |order| && order[j] == d;
      assert order'[j] == d;
    }
  }

  lemma DistinctTail(x: string, s: seq<string>)
    requires Distinct([x] + s)
    ensures Distinct(s) && x !in s
    ensures forall k :: k in [x] + s <==> k == x || k in s
  {
    var t := [x] + s;
    assert forall i :: 0 <= i < |s| ==> s[i] == t[i + 1];
    assert forall i :: 0 <= i < |s| ==> s[i] != t[0];
  }

  lemma OutputKeeps(g: DepMap, counts: map<string, int>, curr: string, queue: seq<string>, order: seq<string>)
    requires Sorting(g, counts, [curr] + queue, order)
    ensures curr !in order && curr in g && Ordered(g, order + [curr])
    ensures Counting(g, counts, order, order + [curr], {}) && Queued(g, queue, order, order + [curr], {})
  {
    DistinctTail(curr, queue);
    assert curr in [curr] + queue && Waiting(g, curr, order, order, {}) == 0;
    PendingZero(Deps(g, curr), order);
    OutputIsOrdered(g, order, curr);
    forall k
      ensures Waiting(g, k, order, order + [curr], {}) == Waiting(g, k, order, order, {})
    {
    }
  }

  /** Telling a node of the output lowers what it waits for by one if it lists it, and changes no other. */
  lemma WaitingTold(g: DepMap, order: seq<string>, curr: string, told: set<string>, key: string, k: string)
    requires ClosedGraph(g) && key !in told && curr !in order
    ensures Waiting(g, k, order, order + [curr], told + {key}) ==
            Waiting(g, k, order, order + [curr], told) - if k == key && curr in Deps(g, key) then 1 else 0
  {
    PendingOutput(Deps(g, key), order, curr);
  }

  lemma ToldCounts(g: DepMap, counts: map<string, int>, order: seq<string>, curr: string, told: set<string>,
                   key: string)
    requires ClosedGraph(g) && key in g && key !in told && curr !in order
    requires Counting(g, counts, order, order + [curr], told)
    ensures Counting(g, if curr in Deps(g, key) then counts[key := counts[key] - 1] else counts,
                     order, order + [curr], told + {key})
  {
    forall k
      ensures Waiting(g, k, order, order + [curr], told + {key}) ==
              Waiting(g, k, order, order + [curr], told) - if k == key && curr in Deps(g, key) then 1 else 0
    {
      WaitingTold(g, order, curr, told, key, k);
    }
  }

  /** A node joins the queue when nothing is left to wait for, which happens once. */
  lemma ToldQueue(g: DepMap, queue: seq<string>, order: seq<string>, curr: string, told: set<string>, key: string)
    requires ClosedGraph(g) && key in g && key !in told && curr !in order
    requires Queued(g, queue, order, order + [curr], told)
    ensures Queued(g, if curr in Deps(g, key) && Waiting(g, key, order, order + [curr], told) == 1
                      then queue + [key] else queue,
                   order, order + [curr], told + {key})
  {
    forall k
      ensures Waiting(g, k, order, order + [curr], told + {key}) ==
              Waiting(g, k, order, order + [curr], told) - if k == key && curr in Deps(g, key) then 1 else 0
    {
      WaitingTold(g, order, curr, told, key, k);
    }
    if curr in Deps(g, key) {
      assert Waiting(g, key, order, order + [curr], told) > 0;
      assert key !in order + [curr] && key !in queue;
      assert forall k :: k in queue + [key] <==> k in queue || k == key;
    }
  }

  lemma AllTold(g: DepMap, counts: map<string, int>, queue: seq<string>, order: seq<string>, order': seq<string>)
    requires Counting(g, counts, order, order', g.Keys) && Queued(g, queue, order, order', g.Keys)
    requires Ordered(g, order')
    ensures Sorting(g, counts, queue, order')
  {
  }

  lemma {:induction false} DistinctSize(s: seq<string>, all: set<string>)
    requires Distinct(s) && forall k :: k in s ==> k in all
    ensures |s| <= |all|
    ensures |s| == |all| ==> forall k :: k in all ==> k in s
  {
    if s != [] {
      var n := |s| - 1;
      DistinctSize(s[..n], all - {s[n]});
      assert forall k :: k in all ==> k == s[n] || k in all - {s[n]};
    }
  }

  lemma {:induction false} KeySetSize<V>(m: seq<Entry<V>>, i: nat)
    requires DistinctKeys(m) && i <= |m|
    ensures |KeySet(m[..i])| == i
  {
    if i > 0 {
      KeySetSize(m, i - 1);
      NextKey(m, i - 1);
    }
  }

  lemma LeftoverIsStuck(g: DepMap, order: seq<string>, left: set<string>)
    requires ClosedGraph(g) && left == (set k | k in g && k !in order) && left != {}
    requires forall k :: k in left ==> Pending(Deps(g, k), order) != 0
    ensures Stuck(g, left)
  {
    forall k {:trigger Deps(g, k)} | k in left
      ensures exists d :: d in Deps(g, k) && d in left
    {
      PendingZero(Deps(g, k), order);
      var d :| d in Deps(g, k) && d !in order;
      assert d in left;
    }
  }

  /** With the queue empty, either everything was output or what is left is stuck. */
  lemma QueueEmpty(g: DepMap, ind: seq<Entry<int>>, order: seq<string>)
    requires ClosedGraph(g) && DistinctKeys(ind) && Sorting(g, AsMap(ind), [], order)
    ensures |order| == |ind| ==> TopologicalSort(g, order)
    ensures |order| != |ind| ==> HasCycle(g)
  {
    DistinctSize(order, g.Keys);
    KeySetSize(ind, |ind|);
    assert ind[..|ind|] == ind;
    if |order| != |ind| {
      var left := set k | k in g && k !in order;
      if left == {} {
        assert forall k :: k in g && k !in order ==> k in left;
        DistinctCovers(order, g.Keys);
      }
      forall k | k in left
        ensures Pending(Deps(g, k), order) != 0
      {
        assert Waiting(g, k, order, order, {}) != 0;
      }
      LeftoverIsStuck(g, order, left);
      StuckHasCycle(g, left);
    }
  }

  lemma {:induction false} DistinctCovers(s: seq<string>, all: set<string>)
    requires Distinct(s) && (forall k :: k in s ==> k in all) && forall k :: k in all ==> k in s
    ensures |s| == |all|
  {
    if s != [] {
      var n := |s| - 1;
      DistinctCovers(s[..n], all - {s[n]});
    }
  }

  datatype SortError = Undeclared(name: string) | CycleDetected

  /** The queue loop of topological_order. */
  method Sort(g: Map<seq<string>>) returns (r: Result<seq<string>, SortError>)
    requires g.Valid() && ClosedGraph(AsMap(g.entry))
    ensures r.Ok? ==> TopologicalSort(AsMap(g.entry), r.value)
    ensures r.Err? ==> r.error == CycleDetected
    ensures r.Err? <==> HasCycle(AsMap(g.entry))
  {
    var indegrees := CalculateIndegrees(g);
    var queue := BuildIndegreeZero(indegrees);
    var order := new StringArr();
    ghost var deps := AsMap(g.entry);
    StartSorting(deps, indegrees.entry, queue.s);
    while |queue.s| > 0
      invariant indegrees.Valid() && Sorting(deps, AsMap(indegrees.entry), queue.s, order.s)
      decreases |deps.Keys| - |order.s|
    {
      ghost var done := order.s;
      var curr := queue.Deque();
      OutputKeeps(deps, AsMap(indegrees.entry), curr, queue.s, done);
      order.Append(curr);
      DistinctSize(order.s, deps.Keys);
      TellAll(g, indegrees, queue, curr, done);
      AllTold(deps, AsMap(indegrees.entry), queue.s, done, order.s);
    }
    QueueEmpty(deps, indegrees.entry, order.s);
    if |order.s| != |indegrees.entry| {
      return Err(CycleDetected);
    }
    SortedIsAcyclic(deps, order.s);
    return Ok(order.s);
  }

  /** The inner loop of topological_order: every node listing `curr` waits for one dependency less. */
  method TellAll(g: Map<seq<string>>, indegrees: Map<int>, queue: StringArr, curr: string, ghost done: seq<string>)
    requires g.Valid() && ClosedGraph(AsMap(g.entry)) && indegrees.Valid() && curr !in done
    requires Counting(AsMap(g.entry), AsMap(indegrees.entry), done, done + [curr], {})
    requires Queued(AsMap(g.entry), queue.s, done, done + [curr], {})
    modifies indegrees, queue
    ensures indegrees.Valid() && g.entry == old(g.entry)
    ensures Counting(AsMap(g.entry), AsMap(indegrees.entry), done, done + [curr], KeySet(g.entry))
    ensures Queued(AsMap(g.entry), queue.s, done, done + [curr], KeySet(g.entry))
  {
    var ge := g.entry;
    ghost var deps, told := AsMap(ge), {};
    for i := 0 to |ge|
      invariant indegrees.Valid() && g.entry == ge && told == KeySet(ge[..i])
      invariant Counting(deps, AsMap(indegrees.entry), done, done + [curr], told)
      invariant Queued(deps, queue.s, done, done + [curr], told)
    {
      NextKey(ge, i);
      TellOne(g, ge[i].key, indegrees, queue, curr, deps, done, told);
      told := told + {ge[i].key};
    }
    assert ge[..|ge|] == ge;
  }

  method TellOne(g: Map<seq<string>>, key: string, indegrees: Map<int>, queue: StringArr, curr: string,
                 ghost deps: DepMap, ghost done: seq<string>, ghost told: set<string>)
    requires g.Valid() && deps == AsMap(g.entry) && ClosedGraph(deps) && indegrees.Valid()
    requires key in deps && key !in told && curr !in done
    requires Counting(deps, AsMap(indegrees.entry), done, done + [curr], told)
    requires Queued(deps, queue.s, done, done + [curr], told)
    modifies indegrees, queue
    ensures indegrees.Valid() && g.entry == old(g.entry)
    ensures Counting(deps, AsMap(indegrees.entry), done, done + [curr], told + {key})
    ensures Queued(deps, queue.s, done, done + [curr], told + {key})
  {
    ghost var counts := AsMap(indegrees.entry);
    assert key in counts && counts[key] == Waiting(deps, key, done, done + [curr], told);
    hide Counting, Queued, ClosedGraph, Waiting, AsMap, Put, Find, DistinctKeys;
    ToldCounts(deps, AsMap(indegrees.entry), done, curr, told, key);
    ToldQueue(deps, queue.s, done, curr, told, key);
    LookupAsMap(g.entry, key);
    var v := g.Get(key);
    var listed := Contains(v.value, curr);
    if listed {
      LookupAsMap(indegrees.entry, key);
      var count := indegrees.Get(key);
      PutAsMap(indegrees.entry, key, count.value - 1);
      indegrees.Set(key, count.value - 1);
      if count.value - 1 == 0 {
        queue.Append(key);
      }
    }
  }

  // ---- the whole command: graph, then order ----

  function Next(c: seq<string>, i: nat): nat {
    if i + 1 == |c| then 0 else i + 1
  }

  ghost predicate Calling(ext: Externals, c: seq<string>, i: nat) {
    i < |c| && c[Next(c, i)] in Calls(ext, c[i])
  }

  /** A cycle of calls between functions the start can reach. */
  ghost predicate RecursiveCalls(ext: Externals, fname: string, c: seq<string>) {
    && |c| > 0
    && (forall i :: 0 <= i < |c| ==> c[i] in ReachableNonAxioms(ext, fname))
    && forall i :: 0 <= i < |c| ==> Calling(ext, c, i)
  }

  ghost predicate CalleesFirst(ext: Externals, fname: string, order: seq<string>) {
    && Distinct(order)
    && (forall f :: f in order <==> f in ReachableNonAxioms(ext, fname))
    && forall i, c :: 0 <= i < |order| && c in Calls(ext, order[i]) && NonAxiom(ext, c) ==> Before(order, c, i)
  }

  lemma CallGraphDep(ext: Externals, fname: string, g: Graph, k: string, d: string)
    requires IsCallGraph(ext, fname, g)
    ensures d in Deps(AsMap(g), k) <==> k in AsMap(g) && d in Calls(ext, k) && NonAxiom(ext, d)
  {
    LookupAsMap(g, k);
  }

  lemma CallGraphIsClosed(ext: Externals, fname: string, g: Graph)
    requires IsCallGraph(ext, fname, g)
    ensures ClosedGraph(AsMap(g))
  {
    forall k | k in AsMap(g)
      ensures Distinct(AsMap(g)[k])
    {
      LookupAsMap(g, k);
    }
    forall k, d | k in AsMap(g) && d in AsMap(g)[k]
      ensures d in AsMap(g)
    {
      LookupAsMap(g, k);
    }
  }

  lemma CycleIsRecursion(ext: Externals, fname: string, g: Graph, c: seq<string>)
    requires IsCallGraph(ext, fname, g) && Cycle(AsMap(g), c)
    ensures RecursiveCalls(ext, fname, c)
  {
    forall i | 0 <= i < |c|
      ensures c[i] in AsMap(g) && Calling(ext, c, i)
    {
      assert i < |c| - 1 ==> Move(AsMap(g), c, i);
      CallGraphDep(ext, fname, g, c[i], c[Next(c, i)]);
    }
  }

  lemma RecursionIsCycle(ext: Externals, fname: string, g: Graph, c: seq<string>)
    requires IsCallGraph(ext, fname, g) && RecursiveCalls(ext, fname, c)
    ensures Cycle(AsMap(g), c)
  {
    forall i: nat | i < |c|
      ensures c[Next(c, i)] in Deps(AsMap(g), c[i]) && (i < |c| - 1 ==> Move(AsMap(g), c, i))
    {
      assert Calling(ext, c, i);
      assert c[Next(c, i)] in ReachableNonAxioms(ext, fname);
      CallGraphDep(ext, fname, g, c[i], c[Next(c, i)]);
    }
    assert c[Next(c, |c| - 1)] in Deps(AsMap(g), c[|c| - 1]);
  }

  lemma SortIsCalleesFirst(ext: Externals, fname: string, g: Graph, order: seq<string>)
    requires IsCallGraph(ext, fname, g) && TopologicalSort(AsMap(g), order)
    ensures CalleesFirst(ext, fname, order)
  {
    forall i, c | 0 <= i < |order| && c in Calls(ext, order[i]) && NonAxiom(ext, c)
      ensures Before(order, c, i)
    {
      assert order[i] in AsMap(g);
      CallGraphDep(ext, fname, g, order[i], c);
    }
  }

  method TopologicalOrder(fname: string, ext: Externals) returns (r: Result<seq<string>, SortError>)
    requires Linked(ext)
    ensures r.Ok? ==> CalleesFirst(ext, fname, r.value)
    ensures r == Err(Undeclared(fname)) <==> fname !in ext
    ensures r == Err(CycleDetected) <==> fname in ext && exists c :: RecursiveCalls(ext, fname, c)
  {
    var g := BuildGraph(fname, ext);
    if g.Err? {
      return Err(Undeclared(g.error));
    }
    CallGraphIsClosed(ext, fname, g.value.entry);
    forall c
      ensures Cycle(AsMap(g.value.entry), c) <==> RecursiveCalls(ext, fname, c)
    {
      if Cycle(AsMap(g.value.entry), c) {
        CycleIsRecursion(ext, fname, g.value.entry, c);
      } else if RecursiveCalls(ext, fname, c) {
        RecursionIsCycle(ext, fname, g.value.entry, c);
      }
    }
    r := Sort(g.value);
    if r.Ok? {
      SortIsCalleesFirst(ext, fname, g.value.entry, r.value);
    }
  }
}
