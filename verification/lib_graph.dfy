/** Which library needs which, pruned to direct needs. */
module LibGraph {
  import opened Digraph
  import opened LibRuns

  class Libraries {
    const libs: set<Lib>
    const syms: map<Lib, set<string>>
    const neededSyms: map<Lib, set<string>>
    var needs: map<Lib, set<Lib>>
    var needed: map<Lib, set<Lib>>
    /** The pairs of a library and one that needs it. */
    ghost var edges: Graph<Lib>

    constructor (libs: set<Lib>, syms: map<Lib, set<string>>, neededSyms: map<Lib, set<string>>)
      requires libs <= syms.Keys && libs <= neededSyms.Keys
      ensures Valid() && edges == {}
      ensures this.libs == libs && this.syms == syms && this.neededSyms == neededSyms
    {
      this.libs, this.syms, this.neededSyms := libs, syms, neededSyms;
      needs := map l | l in libs :: {};
      needed := map l | l in libs :: {};
      edges := {};
    }

    /** `needs` and `needed` record the same edges from both ends. */
    ghost predicate Valid()
      reads this
    {
      && libs <= syms.Keys && libs <= neededSyms.Keys
      && needs.Keys == libs && needed.Keys == libs
      && Within(edges, libs)
      && (forall a, b :: a in libs ==> (b in needed[a] <==> (a, b) in edges))
      && (forall a, b :: b in libs ==> (a in needs[b] <==> (a, b) in edges))
    }

    /** The pairs in which the second library needs a symbol of the first. */
    ghost function Wanted(): Graph<Lib>
      requires libs <= syms.Keys && libs <= neededSyms.Keys
    {
      WantedOf(libs, syms, neededSyms)
    }

    method Connect(a: Lib, b: Lib)
      requires Valid() && a in libs && b in libs
      modifies `needs, `needed, `edges
      ensures Valid() && edges == old(edges) + {(a, b)}
    {
      needs := needs[b := needs[b] + {a}];
      needed := needed[a := needed[a] + {b}];
      edges := edges + {(a, b)};
    }

    method Disconnect(a: Lib, b: Lib)
      requires Valid() && a in libs && b in libs
      modifies `needs, `needed, `edges
      ensures Valid() && edges == old(edges) - {(a, b)}
    {
      needs := needs[b := needs[b] - {a}];
      needed := needed[a := needed[a] - {b}];
      edges := edges - {(a, b)};
    }

    /** What a library is needed by are its successors. */
    lemma Recorded(a: Lib)
      requires Valid() && a in libs
      ensures needed[a] == Next(edges, a)
      ensures Within(edges, libs)
    {
      forall b | b in needed[a] ensures b in Next(edges, a) { assert (a, b) in edges; }
    }

    /** The recursive pruning: takes away the edges from `c` to all that can be reached from
        `cur`. Sets are gone through in any order; the one gone through here does not change
        on the way. */
    method Prune(cur: Lib, c: Lib) returns (ghost n: nat)
      requires Valid() && cur in libs && c in libs && Acyclic(edges) && cur != c && !Reach(edges, cur, c)
      modifies `needs, `needed, `edges
      ensures Valid() && edges == Without(old(edges), c, cur)
      ensures Completes(n, old(edges), cur, c, edges)
      decreases |Below(edges, libs, cur)|, 1
    {
      ghost var g := edges;
      Recorded(cur);
      var all := needed[cur];
      var todo := all;
      ghost var m, xs, gs := 0, [], [g];
      CutNone(g, c);
      while todo != {}
        invariant Valid() && needed[cur] == all == Next(g, cur)
        invariant TakenFrom(xs, all, todo) && edges == Cut(g, c, all - todo)
        invariant Rounds(m, g, cur, c, xs, gs) && gs[|xs|] == edges
        decreases todo
      {
        var i :| i in todo;
        ghost var n := PruneAt(i, c, cur, g, all - todo);
        Recorded(cur);
        NextRound(m, g, cur, c, xs, gs, n, i, edges);
        TakeNext(xs, all, todo, i);
        m, xs, gs := if m < n then n else m, xs + [i], gs + [edges];
        assert all - todo + {i} == all - (todo - {i});
        todo := todo - {i};
      }
      assert all - todo == all;
      CutAll(g, c, cur, all);
      n := m + 1;
    }

    /** One round of it. */
    method PruneAt(i: Lib, c: Lib, ghost cur: Lib, ghost g: Graph<Lib>, ghost done: set<Lib>) returns (ghost n: nat)
      requires Valid() && Within(g, libs) && cur in libs && c in libs && Acyclic(g) && cur != c && !Reach(g, cur, c)
      requires i in Next(g, cur) && edges == Cut(g, c, done)
      modifies `needs, `needed, `edges
      ensures Valid() && edges == Cut(g, c, done + {i})
      ensures Round(n, g, cur, c, i, old(edges), edges)
      decreases |Below(g, libs, cur)|, 0
    {
      assert (cur, i) in g;
      Descend(g, libs, cur, i, c);
      CutOne(g, edges, c, done, i);
      Disconnect(c, i);
      ghost var mid := edges;
      BelowSame(g, mid, libs, c, i);
      n := Prune(i, c);
      CutNext(g, mid, edges, c, done, i);
      CutKeeps(g, c, done + {i}, cur);
    }

    /** Links every ordered pair in which the second needs a symbol of the first. */
    method Link()
      requires Valid() && edges == {}
      modifies `needs, `needed, `edges
      ensures Valid() && edges == Wanted()
    {
      var todo := set a, b | a in libs && b in libs && a != b :: (a, b);
      while todo != {}
        invariant Valid() && edges == Wanted() - todo
        invariant forall e :: e in todo ==> e.0 in libs && e.1 in libs && e.0 != e.1
        decreases todo
      {
        var e :| e in todo;
        if syms[e.0] * neededSyms[e.1] != {} {
          Connect(e.0, e.1);
        }
        assert e in Wanted() <==> syms[e.0] * neededSyms[e.1] != {};
        todo := todo - {e};
      }
    }

    /** Prunes for one library: no edge out of it is left that a longer path provides. */
    method PruneFrom(cur: Lib)
      requires Valid() && cur in libs && Acyclic(edges)
      modifies `needs, `needed, `edges
      ensures Valid() && edges == Direct(old(edges), {cur})
      ensures CompletesFor(old(edges), cur, edges)
    {
      ghost var g := edges;
      Recorded(cur);
      var all := needed[cur];
      var todo := all;
      ghost var xs, gs := [], [g];
      TrimNone(g, cur);
      while todo != {}
        invariant Valid() && TakenFrom(xs, all, todo) && edges == Trim(g, cur, all - todo)
        invariant Passes(g, cur, xs, gs) && gs[|xs|] == edges
        decreases todo
      {
        var i :| i in todo;
        TrimStart(g, libs, cur, all - todo, i);
        ghost var n := Prune(i, cur);
        TrimNext(g, cur, all - todo, i);
        NextPass(g, cur, xs, gs, n, i, edges);
        TakeNext(xs, all, todo, i);
        xs, gs := xs + [i], gs + [edges];
        assert all - todo + {i} == all - (todo - {i});
        todo := todo - {i};
      }
      assert all - todo == all;
      TrimAll(g, cur);
    }

    /** The whole computation. Whatever the order in which the sets are gone through, what is
        left is the transitive reduction of the wanted edges. */
    method ComputeGraph()
      requires Valid() && edges == {} && Acyclic(Wanted())
      modifies `needs, `needed, `edges
      ensures Valid() && edges == Reduction(Wanted())
      ensures SameReach(Wanted(), edges) && Irredundant(edges)
      ensures RunsTo(Wanted(), libs, edges)
      ensures forall a, b, s :: a in libs && b in libs && a != b && s in syms[a] && s in neededSyms[b] ==>
                exists xs :: Chain(needed, xs, a, b)
      ensures forall a, b :: b in libs && a in needs[b] ==> a in libs && exists s :: s in syms[a] && s in neededSyms[b]
    {
      Link();
      ghost var g := Wanted();
      var todo := libs;
      ghost var cs, hs := [], [g];
      DirectNone(g);
      while todo != {}
        invariant Valid() && TakenFrom(cs, libs, todo) && edges == Direct(g, libs - todo)
        invariant Runs(g, cs, hs) && hs[|cs|] == edges
        decreases todo
      {
        var cur :| cur in todo;
        DirectStart(g, libs - todo);
        PruneFrom(cur);
        DirectNext(g, libs, libs - todo, cur);
        NextLibrary(g, cs, hs, cur, edges);
        TakeNext(cs, libs, todo, cur);
        cs, hs := cs + [cur], hs + [edges];
        assert libs - todo + {cur} == libs - (todo - {cur});
        todo := todo - {cur};
      }
      assert libs - todo == libs;
      DirectAll(g, libs);
      ReductionIsReduced(g, libs);
      NeedsAreServed();
    }

    lemma PathIsChain(xs: seq<Lib>, a: Lib, b: Lib)
      requires Valid() && PathFrom(edges, xs, a, b)
      ensures Chain(needed, xs, a, b)
    {
      forall i | 0 <= i < |xs| - 1
        ensures xs[i] in needed && xs[i + 1] in needed[xs[i]]
      {
        assert (xs[i], xs[i + 1]) in edges;
      }
    }

    /** What the two records say when they hold the reduction of the wanted edges: a library
        that needs a symbol of another is reached from it along `needed`, and whatever is in
        `needs` provides a symbol that is needed. */
    lemma NeedsAreServed()
      requires Valid() && edges == Reduction(Wanted()) && SameReach(Wanted(), edges)
      ensures forall a, b, s :: a in libs && b in libs && a != b && s in syms[a] && s in neededSyms[b] ==>
                exists xs :: Chain(needed, xs, a, b)
      ensures forall a, b :: b in libs && a in needs[b] ==> a in libs && exists s :: s in syms[a] && s in neededSyms[b]
    {
      forall a, b, s | a in libs && b in libs && a != b && s in syms[a] && s in neededSyms[b]
        ensures exists xs :: Chain(needed, xs, a, b)
      {
        WantedIff(libs, syms, neededSyms, a, b);
        EdgeReaches(Wanted(), a, b);
        var xs :| PathFrom(edges, xs, a, b);
        PathIsChain(xs, a, b);
      }
      forall a, b | b in libs && a in needs[b]
        ensures a in libs && exists s :: s in syms[a] && s in neededSyms[b]
      {
        assert (a, b) in Wanted();
        WantedIff(libs, syms, neededSyms, a, b);
      }
    }
  }

  /** A way from `a` to `b`, each library being needed by the next. */
  ghost predicate Chain(needed: map<Lib, set<Lib>>, xs: seq<Lib>, a: Lib, b: Lib) {
    && |xs| >= 2 && xs[0] == a && xs[|xs| - 1] == b
    && forall i :: 0 <= i < |xs| - 1 ==> xs[i] in needed && xs[i + 1] in needed[xs[i]]
  }

  ghost function WantedOf(libs: set<Lib>, syms: map<Lib, set<string>>, neededSyms: map<Lib, set<string>>): Graph<Lib>
    requires libs <= syms.Keys && libs <= neededSyms.Keys
  {
    set a, b | a in libs && b in libs && a != b && syms[a] * neededSyms[b] != {} :: (a, b)
  }

  lemma WantedIff(libs: set<Lib>, syms: map<Lib, set<string>>, neededSyms: map<Lib, set<string>>, a: Lib, b: Lib)
    requires libs <= syms.Keys && libs <= neededSyms.Keys
    ensures (a, b) in WantedOf(libs, syms, neededSyms) <==>
            a in libs && b in libs && a != b && exists s :: s in syms[a] && s in neededSyms[b]
  {
    if a in libs && b in libs {
      var both := syms[a] * neededSyms[b];
      if s :| s in syms[a] && s in neededSyms[b] { assert s in both; }
      if both != {} {
        var s :| s in both;
        assert s in syms[a] && s in neededSyms[b];
      }
    }
  }

  /** An edge leads from the library that provides a symbol to the one that needs it. */
  lemma OneWay()
    ensures WantedOf({"a", "b"}, map["a" := {"x"}, "b" := {}], map["a" := {}, "b" := {"x"}]) == {("a", "b")}
  {
    var syms: map<Lib, set<string>> := map["a" := {"x"}, "b" := {}];
    var neededSyms: map<Lib, set<string>> := map["a" := {}, "b" := {"x"}];
    var g := WantedOf({"a", "b"}, syms, neededSyms);
    WantedIff({"a", "b"}, syms, neededSyms, "a", "b");
    WantedIff({"a", "b"}, syms, neededSyms, "b", "a");
    assert "x" in syms["a"] && "x" in neededSyms["b"];
  }

  /** `g` without the superfluous edges out of `done`. */
  ghost function Direct(g: Graph<Lib>, done: set<Lib>): Graph<Lib> {
    set e | e in g && !(e.0 in done && Detour(g, e.0, e.1))
  }

  lemma DirectNone(g: Graph<Lib>)
    ensures Direct(g, {}) == g
  {
  }

  lemma DirectStart(g: Graph<Lib>, done: set<Lib>)
    requires Acyclic(g)
    ensures Acyclic(Direct(g, done))
  {
    SubgraphAcyclic(Direct(g, done), g);
  }

  /** Since a superfluous edge stays superfluous, pruning for the next library removes the
      edges that were superfluous at the start. */
  lemma DirectNext(g: Graph<Lib>, libs: set<Lib>, done: set<Lib>, cur: Lib)
    requires Acyclic(g) && Within(g, libs)
    ensures Direct(Direct(g, done), {cur}) == Direct(g, done + {cur})
  {
    var h := Direct(g, done);
    forall b: Lib ensures Detour(g, cur, b) <==> Detour(h, cur, b) { DetourSurvives(g, h, libs, cur, b); }
  }

  lemma DirectAll(g: Graph<Lib>, libs: set<Lib>)
    requires Within(g, libs)
    ensures Direct(g, libs) == Reduction(g)
  {
  }

  lemma SubgraphAcyclic(h: Graph<Lib>, g: Graph<Lib>)
    requires h <= g && Acyclic(g)
    ensures Acyclic(h)
  {
    forall x: Lib ensures !Reach(h, x, x) { if Reach(h, x, x) { ReachMonotone(h, g, x, x); } }
  }

  /** `j` can be reached from `from`. */
  ghost predicate Over(g: Graph<Lib>, from: set<Lib>, j: Lib) {
    exists i :: i in from && Reach(g, i, j)
  }

  /** `g` without the edges from `c` to what can be reached from `from`. */
  ghost function Trim(g: Graph<Lib>, c: Lib, from: set<Lib>): Graph<Lib> {
    set e | e in g && !(e.0 == c && Over(g, from, e.1))
  }

  lemma TrimNone(g: Graph<Lib>, c: Lib)
    ensures Trim(g, c, {}) == g
  {
  }

  lemma TrimStart(g: Graph<Lib>, libs: set<Lib>, c: Lib, done: set<Lib>, i: Lib)
    requires Acyclic(g) && Within(g, libs) && i in Next(g, c)
    ensures var h := Trim(g, c, done); i in libs && Acyclic(h) && i != c && !Reach(g, i, c) && !Reach(h, i, c)
  {
    var h := Trim(g, c, done);
    assert (c, i) in g;
    EdgeReaches(g, c, i);
    if Reach(g, i, c) { ReachJoins(g, c, i, c); }
    if Reach(h, i, c) { ReachMonotone(h, g, i, c); }
    SubgraphAcyclic(h, g);
  }

  lemma TrimNext(g: Graph<Lib>, c: Lib, done: set<Lib>, i: Lib)
    requires i != c && !Reach(g, i, c)
    ensures Without(Trim(g, c, done), c, i) == Trim(g, c, done + {i})
  {
    var h := Trim(g, c, done);
    forall y: Lib ensures Reach(g, i, y) <==> Reach(h, i, y) { ReachAvoids(g, h, c, i, y); }
    forall j: Lib
      ensures Over(g, done + {i}, j) <==> Over(g, done, j) || Reach(g, i, j)
    {
      if Over(g, done, j) {
        var k :| k in done && Reach(g, k, j);
        assert k in done + {i};
      }
      assert i in done + {i};
    }
  }

  lemma TrimAll(g: Graph<Lib>, c: Lib)
    ensures Trim(g, c, Next(g, c)) == Direct(g, {c})
  {
    forall j: Lib
      ensures Over(g, Next(g, c), j) <==> Detour(g, c, j)
    {
      if Over(g, Next(g, c), j) {
        var i :| i in Next(g, c) && Reach(g, i, j);
        assert (c, i) in g;
      }
      if Detour(g, c, j) {
        var x :| (c, x) in g && Reach(g, x, j);
        assert (c, x).1 in Next(g, c);
      }
    }
  }

  /** The nodes that can be reached from `x`. */
  ghost function Below(g: Graph<Lib>, libs: set<Lib>, x: Lib): set<Lib> {
    set y | y in libs && Reach(g, x, y)
  }

  /** `g` without the edges from `c` to what `cur` reaches. */
  ghost function Without(g: Graph<Lib>, c: Lib, cur: Lib): Graph<Lib> {
    set e | e in g && !(e.0 == c && Reach(g, cur, e.1))
  }

  /** `j` is in `from` or can be reached from there. */
  ghost predicate Under(g: Graph<Lib>, from: set<Lib>, j: Lib) {
    exists i :: i in from && (j == i || Reach(g, i, j))
  }

  /** `g` without the edges from `c` to what lies under `from`. */
  ghost function Cut(g: Graph<Lib>, c: Lib, from: set<Lib>): Graph<Lib> {
    set e | e in g && !(e.0 == c && Under(g, from, e.1))
  }

  lemma CutKeeps(g: Graph<Lib>, c: Lib, from: set<Lib>, x: Lib)
    requires x != c
    ensures Next(Cut(g, c, from), x) == Next(g, x)
  {
    forall y | y in Next(g, x) ensures y in Next(Cut(g, c, from), x) { assert (x, y) in Cut(g, c, from); }
  }

  lemma CutNone(g: Graph<Lib>, c: Lib)
    ensures Cut(g, c, {}) == g
  {
  }

  /** One step down an acyclic graph: still away from `c`, and with less below. */
  lemma Descend(g: Graph<Lib>, libs: set<Lib>, cur: Lib, i: Lib, c: Lib)
    requires Acyclic(g) && Within(g, libs) && (cur, i) in g && cur != c && !Reach(g, cur, c)
    ensures i != c && !Reach(g, i, c)
    ensures |Below(g, libs, i)| < |Below(g, libs, cur)|
  {
    EdgeReaches(g, cur, i);
    if Reach(g, i, c) { ReachJoins(g, cur, i, c); }
    forall y | y in Below(g, libs, i) ensures y in Below(g, libs, cur) { ReachJoins(g, cur, i, y); }
    assert i in Below(g, libs, cur) && i !in Below(g, libs, i);
    SubsetSmaller(Below(g, libs, i), Below(g, libs, cur));
  }

  lemma CutOne(g: Graph<Lib>, h: Graph<Lib>, c: Lib, done: set<Lib>, i: Lib)
    requires Acyclic(g) && h == Cut(g, c, done) && i != c && !Reach(g, i, c)
    ensures var mid := h - {(c, i)}; OnlyCut(g, mid, c) && Acyclic(mid) && !Reach(mid, i, c)
  {
    var mid := h - {(c, i)};
    SubgraphAcyclic(mid, g);
    if Reach(mid, i, c) { ReachMonotone(mid, g, i, c); }
  }

  lemma BelowSame(g: Graph<Lib>, mid: Graph<Lib>, libs: set<Lib>, c: Lib, i: Lib)
    requires OnlyCut(g, mid, c) && i != c && !Reach(g, i, c)
    ensures Below(mid, libs, i) == Below(g, libs, i)
  {
    forall y: Lib ensures Reach(g, i, y) <==> Reach(mid, i, y) { ReachAvoids(g, mid, c, i, y); }
  }

  lemma CutNext(g: Graph<Lib>, mid: Graph<Lib>, next: Graph<Lib>, c: Lib, done: set<Lib>, i: Lib)
    requires mid == Cut(g, c, done) - {(c, i)} && next == Without(mid, c, i)
    requires OnlyCut(g, mid, c) && i != c && !Reach(g, i, c)
    ensures next == Cut(g, c, done + {i})
  {
    forall y: Lib ensures Reach(g, i, y) <==> Reach(mid, i, y) { ReachAvoids(g, mid, c, i, y); }
    forall j: Lib
      ensures Under(g, done + {i}, j) <==> Under(g, done, j) || j == i || Reach(g, i, j)
    {
      if Under(g, done, j) {
        var k :| k in done && (j == k || Reach(g, k, j));
        assert k in done + {i};
      }
      assert i in done + {i};
    }
  }

  lemma CutAll(g: Graph<Lib>, c: Lib, cur: Lib, done: set<Lib>)
    requires done == Next(g, cur)
    ensures Cut(g, c, done) == Without(g, c, cur)
  {
    forall j: Lib
      ensures Under(g, done, j) <==> Reach(g, cur, j)
    {
      if Under(g, done, j) {
        var i :| i in done && (j == i || Reach(g, i, j));
        EdgeReaches(g, cur, i);
        if j != i { ReachJoins(g, cur, i, j); }
      }
      if Reach(g, cur, j) {
        var x := FirstEdge(g, cur, j);
        assert (cur, x).1 in done;
      }
    }
  }

  // ----- when the computation can end

  /** On a graph without cycles, pruning completes. */
  lemma PruneEnds(g: Graph<Lib>, libs: set<Lib>, cur: Lib, c: Lib) returns (n: nat)
    requires Within(g, libs) && Acyclic(g) && cur != c && !Reach(g, cur, c)
    ensures Completes(n, g, cur, c, Without(g, c, cur))
    decreases |Below(g, libs, cur)|
  {
    var all := Next(g, cur);
    var todo, m, xs, gs := all, 0, [], [g];
    CutNone(g, c);
    while todo != {}
      invariant TakenFrom(xs, all, todo) && Rounds(m, g, cur, c, xs, gs) && gs[|xs|] == Cut(g, c, all - todo)
      decreases todo
    {
      var i :| i in todo;
      var h, mid := gs[|xs|], gs[|xs|] - {(c, i)};
      assert (cur, i) in g;
      Descend(g, libs, cur, i, c);
      CutOne(g, h, c, all - todo, i);
      BelowSame(g, mid, libs, c, i);
      var d := PruneEnds(mid, libs, i, c);
      CutNext(g, mid, Without(mid, c, i), c, all - todo, i);
      CutKeeps(g, c, all - todo + {i}, cur);
      NextRound(m, g, cur, c, xs, gs, d, i, Without(mid, c, i));
      TakeNext(xs, all, todo, i);
      m, xs, gs := if m < d then d else m, xs + [i], gs + [Without(mid, c, i)];
      assert all - todo + {i} == all - (todo - {i});
      todo := todo - {i};
    }
    assert all - todo == all;
    CutAll(g, c, cur, all);
    n := m + 1;
  }

  lemma PassEnds(g: Graph<Lib>, libs: set<Lib>, c: Lib)
    requires Within(g, libs) && Acyclic(g)
    ensures CompletesFor(g, c, Direct(g, {c}))
  {
    var all := Next(g, c);
    var todo, xs, gs := all, [], [g];
    TrimNone(g, c);
    while todo != {}
      invariant TakenFrom(xs, all, todo) && Passes(g, c, xs, gs) && gs[|xs|] == Trim(g, c, all - todo)
      decreases todo
    {
      var i :| i in todo;
      var h := gs[|xs|];
      TrimStart(g, libs, c, all - todo, i);
      var n := PruneEnds(h, libs, i, c);
      TrimNext(g, c, all - todo, i);
      NextPass(g, c, xs, gs, n, i, Without(h, c, i));
      TakeNext(xs, all, todo, i);
      xs, gs := xs + [i], gs + [Without(h, c, i)];
      assert all - todo + {i} == all - (todo - {i});
      todo := todo - {i};
    }
    assert all - todo == all;
    TrimAll(g, c);
  }

  lemma RunEnds(g: Graph<Lib>, libs: set<Lib>)
    requires Within(g, libs) && Acyclic(g)
    ensures RunsTo(g, libs, Reduction(g))
  {
    var todo, cs, hs := libs, [], [g];
    DirectNone(g);
    while todo != {}
      invariant TakenFrom(cs, libs, todo) && Runs(g, cs, hs) && hs[|cs|] == Direct(g, libs - todo)
      decreases todo
    {
      var c :| c in todo;
      var h := hs[|cs|];
      DirectStart(g, libs - todo);
      PassEnds(h, libs, c);
      DirectNext(g, libs, libs - todo, c);
      NextLibrary(g, cs, hs, c, Direct(h, {c}));
      TakeNext(cs, libs, todo, c);
      cs, hs := cs + [c], hs + [Direct(h, {c})];
      assert libs - todo + {c} == libs - (todo - {c});
      todo := todo - {c};
    }
    assert libs - todo == libs;
    DirectAll(g, libs);
  }

  /** The computation can end, other than in an error or never, if and only if no library
      needs itself by way of others. */
  lemma EndsIffAcyclic(g: Graph<Lib>, libs: set<Lib>)
    requires Within(g, libs)
    ensures (exists g' :: RunsTo(g, libs, g')) <==> Acyclic(g)
  {
    if Acyclic(g) { RunEnds(g, libs); }
    if g' :| RunsTo(g, libs, g') { RunsOnlyIfAcyclic(g, libs, g'); }
  }

  /** Two libraries that need a symbol of each other: the computation cannot complete. */
  lemma MutualNeed()
    ensures var g := WantedOf({"a", "b"}, map["a" := {"x"}, "b" := {"y"}], map["a" := {"y"}, "b" := {"x"}]);
            g == {("a", "b"), ("b", "a")} && !Acyclic(g) && forall g' :: !RunsTo(g, {"a", "b"}, g')
  {
    var g := WantedOf({"a", "b"}, map["a" := {"x"}, "b" := {"y"}], map["a" := {"y"}, "b" := {"x"}]);
    assert "x" in {"x"} * {"x"} && "y" in {"y"} * {"y"};
    assert g == {("a", "b"), ("b", "a")};
    EdgeReaches(g, "a", "b");
    EdgeReaches(g, "b", "a");
    ReachJoins(g, "a", "b", "a");
    EndsIffAcyclic(g, {"a", "b"});
  }
}
