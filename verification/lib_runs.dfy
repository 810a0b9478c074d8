/** What a completed run of the graph computation is, and that a graph with a cycle has none:
    the recursion goes on for ever, or a set changes while it is gone through. */
module LibRuns {
  import opened Digraph

  type Lib = string

  /** The nodes one edge away from `x`. */
  ghost function Next(g: Graph<Lib>, x: Lib): set<Lib> {
    set e | e in g && e.0 == x :: e.1
  }

  /** An order in which a set is gone through. */
  ghost predicate Enumerates(xs: seq<Lib>, s: set<Lib>) {
    (forall i, j :: 0 <= i < j < |xs| ==> xs[i] != xs[j]) && (forall x :: x in xs <==> x in s)
  }

  // ----- runs

  /** Pruning for `c` at `cur`, started on `g`, returns with `g'` left, by calls that are
      nested at most `n` deep. */
  ghost predicate Completes(n: nat, g: Graph<Lib>, cur: Lib, c: Lib, g': Graph<Lib>)
    decreases n, 0
  {
    n > 0 && exists xs, gs :: Rounds(n - 1, g, cur, c, xs, gs) && Enumerates(xs, Next(g, cur)) && gs[|xs|] == g'
  }

  /** The rounds of its loop: `xs` are the libraries it has been through, `gs` the graphs in
      between. A loop over a set that changes on the way would be an error. */
  ghost predicate Rounds(m: nat, g: Graph<Lib>, cur: Lib, c: Lib, xs: seq<Lib>, gs: seq<Graph<Lib>>)
    decreases m, 2
  {
    && |gs| == |xs| + 1 && gs[0] == g
    && forall k :: 0 <= k < |xs| ==> Round(m, g, cur, c, xs[k], gs[k], gs[k + 1])
  }

  ghost predicate Round(m: nat, g: Graph<Lib>, cur: Lib, c: Lib, i: Lib, h: Graph<Lib>, h': Graph<Lib>)
    decreases m, 1
  {
    Completes(m, h - {(c, i)}, i, c, h') && Next(h', cur) == Next(g, cur)
  }

  /** Pruning for one library: the loop is over a copy of the set. */
  ghost predicate Passes(g: Graph<Lib>, c: Lib, xs: seq<Lib>, gs: seq<Graph<Lib>>) {
    && |gs| == |xs| + 1 && gs[0] == g
    && forall k :: 0 <= k < |xs| ==> CompletesAt(gs[k], xs[k], c, gs[k + 1])
  }

  ghost predicate CompletesAt(g: Graph<Lib>, i: Lib, c: Lib, g': Graph<Lib>) {
    exists n: nat :: Completes(n, g, i, c, g')
  }

  ghost predicate CompletesFor(g: Graph<Lib>, c: Lib, g': Graph<Lib>) {
    exists xs, gs :: Passes(g, c, xs, gs) && Enumerates(xs, Next(g, c)) && gs[|xs|] == g'
  }

  /** Pruning for all libraries, in the order `cs`. */
  ghost predicate Runs(g: Graph<Lib>, cs: seq<Lib>, hs: seq<Graph<Lib>>) {
    |hs| == |cs| + 1 && hs[0] == g && forall k :: 0 <= k < |cs| ==> CompletesFor(hs[k], cs[k], hs[k + 1])
  }

  /** The whole computation can end with `g'`. */
  ghost predicate RunsTo(g: Graph<Lib>, libs: set<Lib>, g': Graph<Lib>) {
    exists cs, hs :: Runs(g, cs, hs) && Enumerates(cs, libs) && hs[|cs|] == g'
  }

  lemma {:induction false} DeeperCompletes(n: nat, n': nat, g: Graph<Lib>, cur: Lib, c: Lib, g': Graph<Lib>)
    requires Completes(n, g, cur, c, g') && n <= n'
    ensures Completes(n', g, cur, c, g')
    decreases n, 0
  {
    var xs, gs :| Rounds(n - 1, g, cur, c, xs, gs) && Enumerates(xs, Next(g, cur)) && gs[|xs|] == g';
    DeeperRounds(n - 1, n' - 1, g, cur, c, xs, gs);
  }

  lemma {:induction false} DeeperRounds(m: nat, m': nat, g: Graph<Lib>, cur: Lib, c: Lib, xs: seq<Lib>,
                                        gs: seq<Graph<Lib>>)
    requires Rounds(m, g, cur, c, xs, gs) && m <= m'
    ensures Rounds(m', g, cur, c, xs, gs)
    decreases m, 1
  {
    forall k | 0 <= k < |xs|
      ensures Round(m', g, cur, c, xs[k], gs[k], gs[k + 1])
    {
      assert Round(m, g, cur, c, xs[k], gs[k], gs[k + 1]);
      DeeperCompletes(m, m', gs[k] - {(c, xs[k])}, xs[k], c, gs[k + 1]);
    }
  }

  /** One more round. */
  lemma NextRound(m: nat, g: Graph<Lib>, cur: Lib, c: Lib, xs: seq<Lib>, gs: seq<Graph<Lib>>,
                  n: nat, i: Lib, h': Graph<Lib>)
    requires Rounds(m, g, cur, c, xs, gs) && Round(n, g, cur, c, i, gs[|xs|], h')
    ensures Rounds(if m < n then n else m, g, cur, c, xs + [i], gs + [h'])
  {
    var d := if m < n then n else m;
    DeeperRounds(m, d, g, cur, c, xs, gs);
    DeeperCompletes(n, d, gs[|xs|] - {(c, i)}, i, c, h');
    var ys, hs := xs + [i], gs + [h'];
    forall k | 0 <= k < |ys|
      ensures Round(d, g, cur, c, ys[k], hs[k], hs[k + 1])
    {
      if k < |xs| { assert ys[k] == xs[k] && hs[k] == gs[k] && hs[k + 1] == gs[k + 1]; }
    }
  }

  lemma NextPass(g: Graph<Lib>, c: Lib, xs: seq<Lib>, gs: seq<Graph<Lib>>, n: nat, i: Lib, h': Graph<Lib>)
    requires Passes(g, c, xs, gs) && Completes(n, gs[|xs|], i, c, h')
    ensures Passes(g, c, xs + [i], gs + [h'])
  {
    var ys, hs := xs + [i], gs + [h'];
    assert CompletesAt(gs[|xs|], i, c, h');
    forall k | 0 <= k < |ys|
      ensures CompletesAt(hs[k], ys[k], c, hs[k + 1])
    {
      if k < |xs| { assert ys[k] == xs[k] && hs[k] == gs[k] && hs[k + 1] == gs[k + 1]; }
    }
  }

  lemma NextLibrary(g: Graph<Lib>, cs: seq<Lib>, hs: seq<Graph<Lib>>, c: Lib, h': Graph<Lib>)
    requires Runs(g, cs, hs) && CompletesFor(hs[|cs|], c, h')
    ensures Runs(g, cs + [c], hs + [h'])
  {
    var ds, fs := cs + [c], hs + [h'];
    forall k | 0 <= k < |ds|
      ensures CompletesFor(fs[k], ds[k], fs[k + 1])
    {
      if k < |cs| { assert ds[k] == cs[k] && fs[k] == hs[k] && fs[k + 1] == hs[k + 1]; }
    }
  }

  /** The elements taken out of `all` so far, in the order they were taken. */
  ghost predicate TakenFrom(xs: seq<Lib>, all: set<Lib>, todo: set<Lib>) {
    todo <= all && Enumerates(xs, all - todo)
  }

  lemma TakeNext(xs: seq<Lib>, all: set<Lib>, todo: set<Lib>, i: Lib)
    requires TakenFrom(xs, all, todo) && i in todo
    ensures TakenFrom(xs + [i], all, todo - {i})
  {
  }

  // ----- paths that do not leave `c`

  ghost predicate Free(g: Graph<Lib>, c: Lib, s: seq<Lib>) {
    |s| > 0 && forall i :: 0 <= i < |s| - 1 ==> s[i] != c && (s[i], s[i + 1]) in g
  }

  ghost predicate FreePath(g: Graph<Lib>, c: Lib, s: seq<Lib>, a: Lib, b: Lib) {
    Free(g, c, s) && |s| > 1 && s[0] == a && s[|s| - 1] == b
  }

  ghost predicate FreeReach(g: Graph<Lib>, c: Lib, a: Lib, b: Lib) {
    exists s :: FreePath(g, c, s, a, b)
  }

  ghost predicate Hits(g: Graph<Lib>, a: Lib, c: Lib) {
    a == c || FreeReach(g, c, a, c)
  }

  /** `h` is `g` but for some edges out of `c`. */
  ghost predicate OnlyCut(g: Graph<Lib>, h: Graph<Lib>, c: Lib) {
    h <= g && forall e :: e in g && e.0 != c ==> e in h
  }

  lemma FreeSame(g: Graph<Lib>, h: Graph<Lib>, c: Lib, s: seq<Lib>)
    requires OnlyCut(g, h, c)
    ensures Free(g, c, s) <==> Free(h, c, s)
  {
  }

  lemma ReachSame(g: Graph<Lib>, h: Graph<Lib>, c: Lib, a: Lib, b: Lib)
    requires OnlyCut(g, h, c)
    ensures FreeReach(g, c, a, b) <==> FreeReach(h, c, a, b)
  {
    if s :| FreePath(g, c, s, a, b) {
      FreeSame(g, h, c, s);
      assert FreePath(h, c, s, a, b);
    }
    if s :| FreePath(h, c, s, a, b) {
      FreeSame(g, h, c, s);
      assert FreePath(g, c, s, a, b);
    }
  }

  lemma FreeJoins(g: Graph<Lib>, c: Lib, s: seq<Lib>, t: seq<Lib>)
    requires Free(g, c, s) && Free(g, c, t) && s[|s| - 1] == t[0]
    ensures Free(g, c, s + t[1..]) && (s + t[1..])[|s| + |t| - 2] == t[|t| - 1]
  {
    var u := s + t[1..];
    forall i | 0 <= i < |u| - 1
      ensures u[i] != c && (u[i], u[i + 1]) in g
    {
      if i >= |s| - 1 { assert u[i] == t[i - |s| + 1] && u[i + 1] == t[i - |s| + 2]; }
    }
  }

  lemma FreeReachJoins(g: Graph<Lib>, c: Lib, a: Lib, b: Lib, d: Lib)
    requires FreeReach(g, c, a, b) && FreeReach(g, c, b, d)
    ensures FreeReach(g, c, a, d)
  {
    var s :| FreePath(g, c, s, a, b);
    var t :| FreePath(g, c, t, b, d);
    FreeJoins(g, c, s, t);
    assert FreePath(g, c, s + t[1..], a, d);
  }

  lemma FreeEdge(g: Graph<Lib>, c: Lib, a: Lib, b: Lib)
    requires (a, b) in g && a != c
    ensures FreeReach(g, c, a, b)
  {
    assert FreePath(g, c, [a, b], a, b);
  }

  /** A step, and then nothing or more. */
  lemma StepThen(g: Graph<Lib>, c: Lib, a: Lib, i: Lib, b: Lib)
    requires (a, i) in g && a != c && (i == b || FreeReach(g, c, i, b))
    ensures FreeReach(g, c, a, b)
  {
    FreeEdge(g, c, a, i);
    if i != b { FreeReachJoins(g, c, a, i, b); }
  }

  lemma FirstStep(g: Graph<Lib>, c: Lib, a: Lib, b: Lib) returns (i: Lib)
    requires FreeReach(g, c, a, b)
    ensures a != c && i in Next(g, a) && (i == b || FreeReach(g, c, i, b))
  {
    var s :| FreePath(g, c, s, a, b);
    i := s[1];
    assert (s[0], s[1]) in g;
    if |s| > 2 {
      var t := s[1..];
      forall j | 0 <= j < |t| - 1 ensures t[j] != c && (t[j], t[j + 1]) in g { assert (s[j + 1], s[j + 2]) in g; }
      assert FreePath(g, c, t, i, b);
    }
  }

  // ----- what a completed call has done

  /** Only edges out of `c` are gone, and only those to what can be reached from `cur`. */
  ghost predicate CutBelow(g: Graph<Lib>, g': Graph<Lib>, cur: Lib, c: Lib) {
    OnlyCut(g, g', c) && forall j :: (c, j) in g && (c, j) !in g' ==> FreeReach(g, c, cur, j)
  }

  lemma {:induction false} CompletedCuts(n: nat, g: Graph<Lib>, cur: Lib, c: Lib, g': Graph<Lib>)
    requires Completes(n, g, cur, c, g')
    ensures CutBelow(g, g', cur, c)
    decreases n, 0
  {
    var xs, gs :| Rounds(n - 1, g, cur, c, xs, gs) && Enumerates(xs, Next(g, cur)) && gs[|xs|] == g';
    if cur == c {
      NoRounds(n - 1, g, c, xs, gs);
    } else {
      RoundsCut(n - 1, g, cur, c, xs, gs, |xs|);
    }
  }

  /** Pruning for `c` at `c` itself only completes if there is nothing to go through. */
  lemma NoRounds(m: nat, g: Graph<Lib>, c: Lib, xs: seq<Lib>, gs: seq<Graph<Lib>>)
    requires Rounds(m, g, c, c, xs, gs) && Enumerates(xs, Next(g, c))
    ensures xs == [] && Next(g, c) == {}
    decreases m, 1
  {
    if |xs| > 0 {
      assert Round(m, g, c, c, xs[0], gs[0], gs[1]) && xs[0] in Next(g, c);
      CompletedCuts(m, g - {(c, xs[0])}, xs[0], c, gs[1]);
    }
  }

  lemma {:induction false} RoundsCut(m: nat, g: Graph<Lib>, cur: Lib, c: Lib, xs: seq<Lib>, gs: seq<Graph<Lib>>, k: nat)
    requires Rounds(m, g, cur, c, xs, gs) && cur != c && k <= |xs|
    requires forall i :: 0 <= i < |xs| ==> xs[i] in Next(g, cur)
    ensures CutBelow(g, gs[k], cur, c)
    decreases m, 2, k
  {
    if k > 0 {
      RoundsCut(m, g, cur, c, xs, gs, k - 1);
      var i, mid := xs[k - 1], gs[k - 1] - {(c, xs[k - 1])};
      assert Round(m, g, cur, c, i, gs[k - 1], gs[k]);
      CompletedCuts(m, mid, i, c, gs[k]);
      assert (cur, i) in g;
      forall j | (c, j) in g && (c, j) !in gs[k]
        ensures FreeReach(g, c, cur, j)
      {
        if (c, j) in mid { ReachSame(g, mid, c, i, j); }
        if (c, j) in gs[k - 1] { StepThen(g, c, cur, i, j); }
      }
    }
  }

  // ----- no run goes below a cycle

  /** Free paths from `cur` are no longer than the calls are nested. */
  lemma {:induction false} NestedAsDeep(n: nat, g: Graph<Lib>, cur: Lib, c: Lib, g': Graph<Lib>, s: seq<Lib>)
    requires Completes(n, g, cur, c, g') && Free(g, c, s) && s[0] == cur
    ensures |s| <= n
    decreases n
  {
    if |s| > 1 {
      var xs, gs :| Rounds(n - 1, g, cur, c, xs, gs) && Enumerates(xs, Next(g, cur)) && gs[|xs|] == g';
      assert (s[0], s[1]) in g && s[1] in Next(g, cur);
      var k :| 0 <= k < |xs| && xs[k] == s[1];
      RoundsCut(n - 1, g, cur, c, xs, gs, k);
      assert Round(n - 1, g, cur, c, xs[k], gs[k], gs[k + 1]);
      var t := s[1..];
      forall j | 0 <= j < |t| - 1 ensures t[j] != c && (t[j], t[j + 1]) in g { assert (s[j + 1], s[j + 2]) in g; }
      FreeSame(g, gs[k] - {(c, xs[k])}, c, t);
      NestedAsDeep(n - 1, gs[k] - {(c, xs[k])}, xs[k], c, gs[k + 1], t);
    }
  }

  /** A free cycle can be gone round as often as one likes. */
  lemma {:induction false} RoundAndRound(g: Graph<Lib>, c: Lib, s: seq<Lib>, a: Lib, m: nat) returns (t: seq<Lib>)
    requires FreePath(g, c, s, a, a)
    ensures Free(g, c, t) && t[0] == a && t[|t| - 1] == a && |t| > m
  {
    if m == 0 {
      t := [a];
    } else {
      var u := RoundAndRound(g, c, s, a, m - 1);
      FreeJoins(g, c, s, u);
      t := s + u[1..];
    }
  }

  lemma NoFreeCycle(n: nat, g: Graph<Lib>, cur: Lib, c: Lib, g': Graph<Lib>)
    requires Completes(n, g, cur, c, g')
    ensures !FreeReach(g, c, cur, cur)
  {
    if FreeReach(g, c, cur, cur) {
      var s :| FreePath(g, c, s, cur, cur);
      var t := RoundAndRound(g, c, s, cur, n);
      NestedAsDeep(n, g, cur, c, g', t);
    }
  }

  /** When the calls get to `c`, no edge out of it may be left: all of them lead to what can
      be reached from `cur`. */
  lemma {:induction false} AllCut(n: nat, g: Graph<Lib>, cur: Lib, c: Lib, g': Graph<Lib>, j: Lib)
    requires Completes(n, g, cur, c, g') && Hits(g, cur, c) && (c, j) in g
    ensures FreeReach(g, c, cur, j)
    decreases n
  {
    var xs, gs :| Rounds(n - 1, g, cur, c, xs, gs) && Enumerates(xs, Next(g, cur)) && gs[|xs|] == g';
    assert cur == c ==> j in Next(g, cur);
    if cur == c {
      NoRounds(n - 1, g, c, xs, gs);
    } else {
      var i := FirstStep(g, c, cur, c);
      var k :| 0 <= k < |xs| && xs[k] == i;
      RoundsCut(n - 1, g, cur, c, xs, gs, k);
      assert Round(n - 1, g, cur, c, xs[k], gs[k], gs[k + 1]);
      var mid := gs[k] - {(c, i)};
      ReachSame(g, mid, c, i, c);
      if (c, j) in mid {
        AllCut(n - 1, mid, i, c, gs[k + 1], j);
        ReachSame(g, mid, c, i, j);
      }
      if (c, j) in gs[k] {
        assert (cur, i) in g;
        StepThen(g, c, cur, i, j);
      }
    }
  }

  // ----- no library on a cycle

  lemma {:induction false} PassesCut(g: Graph<Lib>, c: Lib, xs: seq<Lib>, gs: seq<Graph<Lib>>, j: nat, k: nat)
    requires Passes(g, c, xs, gs) && j <= k <= |xs|
    ensures OnlyCut(gs[j], gs[k], c)
    decreases k
  {
    if j < k {
      PassesCut(g, c, xs, gs, j, k - 1);
      assert CompletesAt(gs[k - 1], xs[k - 1], c, gs[k]);
      var n: nat :| Completes(n, gs[k - 1], xs[k - 1], c, gs[k]);
      CompletedCuts(n, gs[k - 1], xs[k - 1], c, gs[k]);
    }
  }

  /** The round in which an edge is lost. */
  lemma {:induction false} LostAt(gs: seq<Graph<Lib>>, e: (Lib, Lib), k: nat) returns (j: nat)
    requires k < |gs| && e in gs[0] && e !in gs[k]
    ensures j < k && e in gs[j] && e !in gs[j + 1]
  {
    if e in gs[k - 1] { j := k - 1; } else { j := LostAt(gs, e, k - 1); }
  }

  /** None of the libraries gone through can lead back to `c`. */
  lemma {:induction false} NoneHits(g: Graph<Lib>, c: Lib, xs: seq<Lib>, gs: seq<Graph<Lib>>, k: nat)
    requires Passes(g, c, xs, gs) && Enumerates(xs, Next(g, c)) && k < |xs|
    ensures !Hits(gs[k], xs[k], c)
    decreases k
  {
    if Hits(gs[k], xs[k], c) {
      var x := xs[k];
      assert CompletesAt(gs[k], x, c, gs[k + 1]);
      var n: nat :| Completes(n, gs[k], x, c, gs[k + 1]);
      assert x in Next(g, c) && (c, x) in gs[0];
      if (c, x) in gs[k] {
        AllCut(n, gs[k], x, c, gs[k + 1], x);
        NoFreeCycle(n, gs[k], x, c, gs[k + 1]);
      } else {
        var j := LostAt(gs, (c, x), k);
        HitsBefore(g, c, xs, gs, j, k);
        NoneHits(g, c, xs, gs, j);
      }
    }
  }

  lemma HitsBefore(g: Graph<Lib>, c: Lib, xs: seq<Lib>, gs: seq<Graph<Lib>>, j: nat, k: nat)
    requires Passes(g, c, xs, gs) && j < k < |xs| && Hits(gs[k], xs[k], c)
    requires (c, xs[k]) in gs[j] && (c, xs[k]) !in gs[j + 1]
    ensures Hits(gs[j], xs[j], c)
  {
    assert CompletesAt(gs[j], xs[j], c, gs[j + 1]);
    var n: nat :| Completes(n, gs[j], xs[j], c, gs[j + 1]);
    CompletedCuts(n, gs[j], xs[j], c, gs[j + 1]);
    PassesCut(g, c, xs, gs, j, k);
    if xs[k] != c {
      ReachSame(gs[j], gs[k], c, xs[k], c);
      FreeReachJoins(gs[j], c, xs[j], xs[k], c);
    }
  }

  /** The last piece of a path that ends in `c`. */
  lemma {:induction false} LastPiece(g: Graph<Lib>, c: Lib, s: seq<Lib>) returns (x: Lib)
    requires PathFrom(g, s, c, c)
    ensures x in Next(g, c) && Hits(g, x, c)
    decreases |s|
  {
    assert (s[0], s[1]) in g;
    if p :| 0 < p < |s| - 1 && s[p] == c {
      var t := s[p..];
      forall i | 0 <= i < |t| - 1 ensures (t[i], t[i + 1]) in g { assert (s[p + i], s[p + i + 1]) in g; }
      x := LastPiece(g, c, t);
    } else {
      x := s[1];
      var t := s[1..];
      forall i | 0 <= i < |t| - 1 ensures t[i] != c && (t[i], t[i + 1]) in g { assert (s[i + 1], s[i + 2]) in g; }
      assert |t| > 1 ==> FreePath(g, c, t, x, c);
    }
  }

  /** Pruning for a library that lies on a cycle does not complete. */
  lemma NotOnCycle(g: Graph<Lib>, c: Lib, g': Graph<Lib>)
    requires CompletesFor(g, c, g')
    ensures !Reach(g, c, c) && OnlyCut(g, g', c)
  {
    var xs, gs :| Passes(g, c, xs, gs) && Enumerates(xs, Next(g, c)) && gs[|xs|] == g';
    PassesCut(g, c, xs, gs, 0, |xs|);
    if Reach(g, c, c) {
      var s :| PathFrom(g, s, c, c);
      var x := LastPiece(g, c, s);
      var k :| 0 <= k < |xs| && xs[k] == x;
      PassesCut(g, c, xs, gs, 0, k);
      if x != c { ReachSame(g, gs[k], c, x, c); }
      NoneHits(g, c, xs, gs, k);
    }
  }

  // ----- no cycle at all

  /** Before library `k` is dealt with, only edges out of earlier ones are gone. */
  lemma {:induction false} OnlyEarlierCut(g: Graph<Lib>, cs: seq<Lib>, hs: seq<Graph<Lib>>, k: nat)
    requires Runs(g, cs, hs) && k <= |cs|
    ensures hs[k] <= g && forall e :: e in g && e !in hs[k] ==> e.0 in cs[..k]
  {
    if k > 0 {
      OnlyEarlierCut(g, cs, hs, k - 1);
      NotOnCycle(hs[k - 1], cs[k - 1], hs[k]);
      forall e | e in g && e !in hs[k]
        ensures e.0 in cs[..k]
      {
        assert e in hs[k - 1] ==> cs[..k][k - 1] == e.0;
        assert cs[..k - 1] <= cs[..k];
      }
    }
  }

  lemma {:induction false} NoneOnCycle(g: Graph<Lib>, cs: seq<Lib>, hs: seq<Graph<Lib>>, k: nat)
    requires Runs(g, cs, hs) && k < |cs|
    ensures !Reach(g, cs[k], cs[k])
    decreases k
  {
    if Reach(g, cs[k], cs[k]) {
      var s :| PathFrom(g, s, cs[k], cs[k]);
      OnlyEarlierCut(g, cs, hs, k);
      forall i | 0 <= i < |s| - 1
        ensures (s[i], s[i + 1]) in hs[k]
      {
        assert (s[i], s[i + 1]) in g;
        if s[i] in cs[..k] {
          var j :| 0 <= j < k && cs[j] == s[i];
          AlsoOnCycle(g, s, i);
          NoneOnCycle(g, cs, hs, j);
        }
      }
      assert PathFrom(hs[k], s, cs[k], cs[k]);
      NotOnCycle(hs[k], cs[k], hs[k + 1]);
    }
  }

  /** Every node of a cycle lies on one. */
  lemma AlsoOnCycle(g: Graph<Lib>, s: seq<Lib>, i: nat)
    requires Path(g, s) && s[0] == s[|s| - 1] && i < |s| - 1
    ensures Reach(g, s[i], s[i])
  {
    SuffixReaches(g, s, i);
    if i > 0 {
      PrefixReaches(g, s, i);
      ReachJoins(g, s[i], s[0], s[i]);
    }
  }

  /** The computation only ends, other than in an error, on a graph without cycles. */
  lemma RunsOnlyIfAcyclic(g: Graph<Lib>, libs: set<Lib>, g': Graph<Lib>)
    requires Within(g, libs) && RunsTo(g, libs, g')
    ensures Acyclic(g)
  {
    var cs, hs :| Runs(g, cs, hs) && Enumerates(cs, libs) && hs[|cs|] == g';
    forall x: Lib
      ensures !Reach(g, x, x)
    {
      if Reach(g, x, x) {
        var i := FirstEdge(g, x, x);
        var k :| 0 <= k < |cs| && cs[k] == x;
        NoneOnCycle(g, cs, hs, k);
      }
    }
  }
}
