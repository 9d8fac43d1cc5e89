/** Building the graph of called functions by depth-first search (src/ast/function/function.c). */
module CallGraph {
  import opened Util

  /** A declared function; its body is given by the functions its statements call, in source order. */
  datatype Function = Function(isaxiom: bool, body: Option<seq<string>>)

  type Externals = map<string, Function>

  /** The calls of a function in source order; the search does not look inside axioms. */
  function Calls(ext: Externals, f: string): seq<string> {
    if f in ext && !ext[f].isaxiom && ext[f].body.Some? then ext[f].body.value else []
  }

  /** What the source demands of its input: non-axioms have bodies, and whatever they call is declared. */
  ghost predicate Linked(ext: Externals) {
    forall f :: f in ext && !ext[f].isaxiom ==>
      ext[f].body.Some? && forall c :: c in Calls(ext, f) ==> c in ext
  }

  predicate NonAxiom(ext: Externals, f: string) {
    f in ext && !ext[f].isaxiom
  }

  /** The first occurrences of the non-axiom names in s. */
  function Deduped(ext: Externals, s: seq<string>): (r: seq<string>)
    ensures forall c :: c in r <==> c in s && NonAxiom(ext, c)
    ensures Distinct(r)
  {
    if s == [] then []
    else
      var init, last := s[..|s| - 1], s[|s| - 1];
      assert s == init + [last];
      if last in init || !NonAxiom(ext, last) then Deduped(ext, init) else Deduped(ext, init) + [last]
  }

  type Graph = seq<Entry<seq<string>>>

  /** Callees listed for each finished function. */
  ghost predicate Lists(ext: Externals, g: Graph) {
    forall i :: 0 <= i < |g| ==> g[i].value == Deduped(ext, Calls(ext, g[i].key))
  }

  ghost function NonAxioms(ext: Externals, names: set<string>): set<string> {
    set f | f in names && NonAxiom(ext, f)
  }

  ghost predicate CallsSeen(ext: Externals, f: string, seen: set<string>) {
    forall c :: c in Calls(ext, f) ==> c in seen
  }

  /** State of the search: `seen` was entered, `grey` is still on the recursion stack, the rest is in g. */
  ghost predicate Searching(ext: Externals, g: Graph, seen: set<string>, grey: set<string>) {
    && DistinctKeys(g) && Lists(ext, g)
    && seen <= ext.Keys
    && grey <= NonAxioms(ext, seen)
    && KeySet(g) == NonAxioms(ext, seen) - grey
    && forall f :: f in KeySet(g) ==> CallsSeen(ext, f, seen)
  }

  // ---- reachability along calls ----

  ghost predicate CallPath(ext: Externals, p: seq<string>) {
    && |p| > 0
    && forall i :: 0 <= i < |p| - 1 ==> p[i + 1] in Calls(ext, p[i])
  }

  ghost predicate Reachable(ext: Externals, from: string, to: string) {
    exists p :: CallPath(ext, p) && p[0] == from && p[|p| - 1] == to
  }

  lemma ReachesItself(ext: Externals, f: string)
    ensures Reachable(ext, f, f)
  {
    assert CallPath(ext, [f]);
  }

  lemma ReachesThroughCall(ext: Externals, f: string, c: string, to: string)
    requires c in Calls(ext, f) && Reachable(ext, c, to)
    ensures Reachable(ext, f, to)
  {
    var p :| CallPath(ext, p) && p[0] == c && p[|p| - 1] == to;
    var q := [f] + p;
    forall i | 0 <= i < |q| - 1
      ensures q[i + 1] in Calls(ext, q[i])
    {
      if i > 0 {
        assert p[(i - 1) + 1] in Calls(ext, p[i - 1]);
      }
    }
    assert CallPath(ext, q);
  }

  /** A set closed under calls that holds the start holds everything reachable. */
  lemma {:induction false} ClosedHoldsReachable(ext: Externals, seen: set<string>, p: seq<string>)
    requires CallPath(ext, p) && p[0] in seen
    requires forall f :: f in seen ==> CallsSeen(ext, f, seen)
    ensures p[|p| - 1] in seen
  {
    if |p| > 1 {
      assert p[0 + 1] in Calls(ext, p[0]);
      var q := p[1..];
      forall i | 0 <= i < |q| - 1
        ensures q[i + 1] in Calls(ext, q[i])
      {
        assert p[(i + 1) + 1] in Calls(ext, p[i + 1]);
      }
      ClosedHoldsReachable(ext, seen, q);
    }
  }

  // ---- steps of the search ----

  lemma EnterKeeps(ext: Externals, g: Graph, seen: set<string>, grey: set<string>, f: string)
    requires Searching(ext, g, seen, grey) && f in ext && f !in seen
    ensures Searching(ext, g, seen + {f}, if NonAxiom(ext, f) then grey + {f} else grey)
  {
  }

  lemma FinishKeeps(ext: Externals, g: Graph, seen: set<string>, grey: set<string>, f: string)
    requires Searching(ext, g, seen, grey) && f in grey && CallsSeen(ext, f, seen)
    ensures var g' := Put(g, f, Deduped(ext, Calls(ext, f)));
            g <= g' && Searching(ext, g', seen, grey - {f})
  {
    var v := Deduped(ext, Calls(ext, f));
    LookupAsMap(g, f);
    PutLookup(g, f, v);
    PutKeySet(g, f, v);
  }

  lemma DedupedStep(ext: Externals, s: seq<string>, c: string)
    ensures Deduped(ext, s + [c]) ==
            if c in s || !NonAxiom(ext, c) then Deduped(ext, s) else Deduped(ext, s) + [c]
  {
  }

  /** State of one visit: the calls `done` so far were recorded once each and searched. */
  ghost predicate Visiting(ext: Externals, fname: string, before: set<string>, g0: Graph, done: seq<string>,
                           local: set<string>, val: seq<string>, g: Graph, seen: set<string>, grey: set<string>) {
    && local == (set c | c in done)
    && val == Deduped(ext, done)
    && Searching(ext, g, seen, grey)
    && before + {fname} <= seen
    && g0 <= g
    && (forall c :: c in done ==> c in seen)
    && forall f :: f in seen && f !in before ==> Reachable(ext, fname, f)
  }

  lemma VisitRepeats(ext: Externals, fname: string, before: set<string>, g0: Graph, done: seq<string>,
                     local: set<string>, val: seq<string>, g: Graph, seen: set<string>, grey: set<string>, c: string)
    requires Visiting(ext, fname, before, g0, done, local, val, g, seen, grey) && c in local
    ensures Visiting(ext, fname, before, g0, done + [c], local, val, g, seen, grey)
  {
  }

  lemma VisitCalls(ext: Externals, fname: string, before: set<string>, g0: Graph, done: seq<string>,
                   local: set<string>, val: seq<string>, g: Graph, seen: set<string>, grey: set<string>, c: string,
                   g': Graph, seen': set<string>)
    requires Visiting(ext, fname, before, g0, done, local, val, g, seen, grey)
    requires c !in local && c in Calls(ext, fname) && c in ext
    requires Searching(ext, g', seen', grey) && g <= g' && seen + {c} <= seen'
    requires forall f :: f in seen' && f !in seen ==> Reachable(ext, c, f)
    ensures Visiting(ext, fname, before, g0, done + [c], local + {c},
                     if NonAxiom(ext, c) then val + [c] else val, g', seen', grey)
  {
    DedupedStep(ext, done, c);
    forall f | f in seen' && f !in before
      ensures Reachable(ext, fname, f)
    {
      if f !in seen {
        ReachesThroughCall(ext, fname, c, f);
      }
    }
  }

  lemma VisitEnds(ext: Externals, fname: string, before: set<string>, g0: Graph, done: seq<string>,
                  local: set<string>, val: seq<string>, g: Graph, seen: set<string>, grey: set<string>)
    requires Visiting(ext, fname, before, g0, done, local, val, g, seen, grey + {fname})
    requires done == Calls(ext, fname) && fname !in grey
    ensures var g' := Put(g, fname, val);
            g0 <= g' && DistinctKeys(g') && Searching(ext, g', seen, grey)
  {
    FinishKeeps(ext, g, seen, grey + {fname}, fname);
    assert grey + {fname} - {fname} == grey;
  }

  /** recurse_buildgraph; false models the exit on an undeclared name. */
  method RecurseBuildGraph(g: Map<seq<string>>, dedup: Map<bool>, fname: string, ext: Externals,
                           ghost grey: set<string>)
    returns (declared: bool)
    requires g.Valid() && dedup.Valid() && Linked(ext)
    requires Searching(ext, g.entry, KeySet(dedup.entry), grey)
    modifies g, dedup
    ensures g.Valid() && dedup.Valid()
    ensures declared <==> fname in ext
    ensures declared ==> Searching(ext, g.entry, KeySet(dedup.entry), grey)
    ensures declared ==> old(g.entry) <= g.entry && KeySet(old(dedup.entry)) + {fname} <= KeySet(dedup.entry)
    ensures declared ==> forall f :: f in KeySet(dedup.entry) && f !in KeySet(old(dedup.entry)) ==>
      Reachable(ext, fname, f)
    decreases ext.Keys - KeySet(dedup.entry), 0
  {
    var entered := dedup.Get(fname);
    LookupInKeySet(dedup.entry, fname);
    if entered.Some? {
      return true;
    }
    ghost var before := KeySet(dedup.entry);
    PutKeySet(dedup.entry, fname, true);
    dedup.Set(fname, true);
    if fname !in ext {
      return false;
    }
    EnterKeeps(ext, g.entry, before, grey, fname);
    ReachesItself(ext, fname);
    if ext[fname].isaxiom {
      return true;
    }
    var val := SearchCalls(g, dedup, fname, ext, grey, before, g.entry);
    g.Set(fname, val);
    return true;
  }

  /** The loop of recurse_buildgraph over the calls in a body, each recorded and searched once. */
  method SearchCalls(g: Map<seq<string>>, dedup: Map<bool>, fname: string, ext: Externals,
                     ghost grey: set<string>, ghost before: set<string>, ghost g0: Graph)
    returns (val: seq<string>)
    requires g.Valid() && dedup.Valid() && Linked(ext) && NonAxiom(ext, fname) && fname !in grey
    requires Visiting(ext, fname, before, g0, [], {}, [], g.entry, KeySet(dedup.entry), grey + {fname})
    modifies g, dedup
    ensures g.Valid() && dedup.Valid()
    ensures before + {fname} <= KeySet(dedup.entry)
    ensures forall f :: f in KeySet(dedup.entry) && f !in before ==> Reachable(ext, fname, f)
    ensures var g' := Put(g.entry, fname, val);
            g0 <= g' && DistinctKeys(g') && Searching(ext, g', KeySet(dedup.entry), grey)
    decreases ext.Keys - KeySet(dedup.entry), 2
  {
    var localDedup := new Map<bool>();
    var body := ext[fname].body.value;
    assert KeySet(localDedup.entry) == {};
    hide Visiting, Searching, KeySet, DistinctKeys;
    val := [];
    for j := 0 to |body|
      invariant g.Valid() && dedup.Valid() && localDedup.Valid()
      invariant old(KeySet(dedup.entry)) <= KeySet(dedup.entry)
      invariant Visiting(ext, fname, before, g0, body[..j], KeySet(localDedup.entry), val, g.entry,
                         KeySet(dedup.entry), grey + {fname})
    {
      assert body[..j + 1] == body[..j] + [body[j]];
      val := SearchCall(g, dedup, localDedup, fname, body[j], ext, val, grey, before, g0, body[..j]);
    }
    assert body[..|body|] == body;
    VisitEnds(ext, fname, before, g0, body, KeySet(localDedup.entry), val, g.entry, KeySet(dedup.entry), grey);
  }

  method SearchCall(g: Map<seq<string>>, dedup: Map<bool>, localDedup: Map<bool>, fname: string, c: string,
                    ext: Externals, val: seq<string>, ghost grey: set<string>, ghost before: set<string>,
                    ghost g0: Graph, ghost done: seq<string>)
    returns (val': seq<string>)
    requires g.Valid() && dedup.Valid() && localDedup.Valid() && dedup != localDedup
    requires Linked(ext) && c in Calls(ext, fname) && c in ext
    requires Visiting(ext, fname, before, g0, done, KeySet(localDedup.entry), val, g.entry, KeySet(dedup.entry),
                      grey + {fname})
    modifies g, dedup, localDedup
    ensures g.Valid() && dedup.Valid() && localDedup.Valid()
    ensures old(KeySet(dedup.entry)) <= KeySet(dedup.entry)
    ensures Visiting(ext, fname, before, g0, done + [c], KeySet(localDedup.entry), val', g.entry,
                     KeySet(dedup.entry), grey + {fname})
    decreases ext.Keys - KeySet(dedup.entry), 1
  {
    ghost var local, seen, gBefore := KeySet(localDedup.entry), KeySet(dedup.entry), g.entry;
    var again := localDedup.Get(c);
    LookupInKeySet(localDedup.entry, c);
    if again.Some? {
      VisitRepeats(ext, fname, before, g0, done, local, val, g.entry, seen, grey + {fname}, c);
      return val;
    }
    PutKeySet(localDedup.entry, c, true);
    localDedup.Set(c, true);
    var ok := RecurseBuildGraph(g, dedup, c, ext, grey + {fname});
    VisitCalls(ext, fname, before, g0, done, local, val, gBefore, seen, grey + {fname}, c,
               g.entry, KeySet(dedup.entry));
    return if !ext[c].isaxiom then val + [c] else val;
  }

  ghost function ReachableNonAxioms(ext: Externals, fname: string): set<string> {
    set f | f in ext && NonAxiom(ext, f) && Reachable(ext, fname, f)
  }

  /** The graph has one node for each non-axiom reachable from the start and nothing else; each node
      lists its non-axiom callees once, and every listed callee is itself a node. */
  ghost predicate IsCallGraph(ext: Externals, fname: string, g: Graph) {
    && DistinctKeys(g)
    && KeySet(g) == ReachableNonAxioms(ext, fname)
    && Lists(ext, g)
    && forall i, c :: 0 <= i < |g| && c in g[i].value ==> c in KeySet(g)
  }

  lemma SearchedIsCallGraph(ext: Externals, fname: string, g: Graph, seen: set<string>)
    requires Linked(ext) && Searching(ext, g, seen, {}) && fname in seen
    requires forall f :: f in seen ==> Reachable(ext, fname, f)
    ensures IsCallGraph(ext, fname, g)
  {
    assert forall f :: f in seen ==> CallsSeen(ext, f, seen) by {
      forall f | f in seen
        ensures CallsSeen(ext, f, seen)
      {
        if NonAxiom(ext, f) {
          assert f in KeySet(g);
        }
      }
    }
    forall f | f in ReachableNonAxioms(ext, fname)
      ensures f in seen
    {
      var p :| CallPath(ext, p) && p[0] == fname && p[|p| - 1] == f;
      ClosedHoldsReachable(ext, seen, p);
    }
    forall i, c | 0 <= i < |g| && c in g[i].value
      ensures c in KeySet(g)
    {
      KeyAt(g, i);
      assert CallsSeen(ext, g[i].key, seen);
    }
  }

  method BuildGraph(fname: string, ext: Externals) returns (r: Result<Map<seq<string>>, string>)
    requires Linked(ext)
    ensures r.Ok? <==> fname in ext
    ensures r.Err? ==> r.error == fname
    ensures r.Ok? ==> fresh(r.value) && r.value.Valid() && IsCallGraph(ext, fname, r.value.entry)
  {
    var dedup := new Map<bool>();
    var g := new Map<seq<string>>();
    var declared := RecurseBuildGraph(g, dedup, fname, ext, {});
    if !declared {
      return Err(fname);
    }
    SearchedIsCallGraph(ext, fname, g.entry, KeySet(dedup.entry));
    return Ok(g);
  }
}
