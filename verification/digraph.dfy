/** Finite directed graphs: reachability, redundant edges, and the transitive reduction of
    an acyclic graph. */
module Digraph {

  type Graph<T(==)> = set<(T, T)>

  /** A walk along edges, with at least one edge. */
  ghost predicate Path<T(!new)>(g: Graph<T>, s: seq<T>) {
    |s| >= 2 && forall i :: 0 <= i < |s| - 1 ==> (s[i], s[i + 1]) in g
  }

  ghost predicate PathFrom<T(!new)>(g: Graph<T>, s: seq<T>, a: T, b: T) {
    Path(g, s) && s[0] == a && s[|s| - 1] == b
  }

  ghost predicate Reach<T(!new)>(g: Graph<T>, a: T, b: T) {
    exists s: seq<T> :: PathFrom(g, s, a, b)
  }

  ghost predicate Acyclic<T(!new)>(g: Graph<T>) {
    forall x: T :: !Reach(g, x, x)
  }

  lemma EdgeReaches<T(!new)>(g: Graph<T>, a: T, b: T)
    requires (a, b) in g
    ensures Reach(g, a, b)
  {
    assert PathFrom(g, [a, b], a, b);
  }

  lemma ReachJoins<T(!new)>(g: Graph<T>, a: T, b: T, c: T)
    requires Reach(g, a, b) && Reach(g, b, c)
    ensures Reach(g, a, c)
  {
    var s :| PathFrom(g, s, a, b);
    var t :| PathFrom(g, t, b, c);
    var u := s + t[1..];
    forall i | 0 <= i < |u| - 1
      ensures (u[i], u[i + 1]) in g
    {
      if i >= |s| - 1 {
        assert u[i] == t[i - |s| + 1] && u[i + 1] == t[i - |s| + 2];
      }
    }
    assert PathFrom(g, u, a, c);
  }

  /** A path either is an edge or starts with one and goes on. */
  lemma FirstEdge<T(!new)>(g: Graph<T>, a: T, b: T) returns (x: T)
    requires Reach(g, a, b)
    ensures (a, x) in g && (x == b || Reach(g, x, b))
  {
    var s :| PathFrom(g, s, a, b);
    x := s[1];
    assert (s[0], s[1]) in g;
    if |s| > 2 {
      var t := s[1..];
      forall i | 0 <= i < |t| - 1 ensures (t[i], t[i + 1]) in g { assert (s[i + 1], s[i + 2]) in g; }
      assert PathFrom(g, t, x, b);
    }
  }

  lemma ReachMonotone<T(!new)>(g: Graph<T>, g': Graph<T>, a: T, b: T)
    requires g <= g' && Reach(g, a, b)
    ensures Reach(g', a, b)
  {
    var s :| PathFrom(g, s, a, b);
    assert PathFrom(g', s, a, b);
  }

  /** Removing edges out of `c` does not matter to a node that cannot reach `c`. */
  lemma ReachAvoids<T(!new)>(g: Graph<T>, g': Graph<T>, c: T, a: T, b: T)
    requires g' <= g && (forall e :: e in g && e.0 != c ==> e in g')
    requires a != c && !Reach(g, a, c)
    ensures Reach(g, a, b) <==> Reach(g', a, b)
  {
    if Reach(g, a, b) {
      var s :| PathFrom(g, s, a, b);
      forall i | 0 <= i < |s| - 1
        ensures (s[i], s[i + 1]) in g'
      {
        if s[i] == c { PrefixReaches(g, s, i); }
      }
      assert PathFrom(g', s, a, b);
    }
    if Reach(g', a, b) { ReachMonotone(g', g, a, b); }
  }

  lemma PrefixReaches<T(!new)>(g: Graph<T>, s: seq<T>, i: nat)
    requires Path(g, s) && 0 < i < |s|
    ensures Reach(g, s[0], s[i])
  {
    assert PathFrom(g, s[..i + 1], s[0], s[i]);
  }

  // ----- redundancy

  /** A longer path also leads from `a` to `b`. */
  ghost predicate Detour<T(!new)>(g: Graph<T>, a: T, b: T) {
    exists x: T :: (a, x) in g && Reach(g, x, b)
  }

  /** The edges that no longer path makes superfluous. */
  ghost function Reduction<T(!new)>(g: Graph<T>): Graph<T> {
    set e | e in g && !Detour(g, e.0, e.1)
  }

  ghost predicate Within<T(!new)>(g: Graph<T>, nodes: set<T>) {
    forall e :: e in g ==> e.0 in nodes && e.1 in nodes
  }

  /** The nodes on the way from `a` to `b`. */
  ghost function Between<T(!new)>(g: Graph<T>, nodes: set<T>, a: T, b: T): set<T> {
    set z | z in nodes && Reach(g, a, z) && Reach(g, z, b)
  }

  /** A piece of a detour has fewer nodes on the way. */
  lemma BetweenShrinks<T(!new)>(g: Graph<T>, nodes: set<T>, a: T, x: T, b: T, u: T, v: T)
    requires Acyclic(g) && Within(g, nodes) && Reach(g, a, x) && Reach(g, x, b) && x in nodes
    requires (u == a && v == x) || ((u == x || Reach(g, x, u)) && Reach(g, u, v) && (v == b || Reach(g, v, b)))
    ensures Between(g, nodes, u, v) < Between(g, nodes, a, b)
  {
    forall z | z in Between(g, nodes, u, v)
      ensures z in Between(g, nodes, a, b) && z != x
    {
      if u == a && v == x {
        ReachJoins(g, z, x, b);
      } else {
        if u != x { ReachJoins(g, x, u, z); }
        ReachJoins(g, a, x, z);
        if v != b { ReachJoins(g, z, v, b); }
      }
    }
    assert x in Between(g, nodes, a, b);
  }

  /** Whatever superfluous edges are dropped, every edge can still be travelled. */
  lemma {:induction false} EdgeSurvives<T(!new)>(g: Graph<T>, h: Graph<T>, nodes: set<T>, a: T, b: T)
    requires Acyclic(g) && Within(g, nodes) && Reduction(g) <= h <= g && (a, b) in g
    ensures Reach(h, a, b)
    decreases |Between(g, nodes, a, b)|, 1, 0
  {
    if (a, b) in h {
      EdgeReaches(h, a, b);
    } else {
      assert Detour(g, a, b);
      var x :| (a, x) in g && Reach(g, x, b);
      EdgeReaches(g, a, x);
      BetweenShrinks(g, nodes, a, x, b, a, x);
      SubsetSmaller(Between(g, nodes, a, x), Between(g, nodes, a, b));
      EdgeSurvives(g, h, nodes, a, x);
      var s :| PathFrom(g, s, x, b);
      PathSurvives(g, h, nodes, a, x, b, s, |s| - 1);
      ReachJoins(h, a, x, b);
    }
  }

  lemma SubsetSmaller<T>(s: set<T>, t: set<T>)
    requires s < t
    ensures |s| < |t|
  {
    assert t == s + (t - s);
    assert |t - s| > 0;
  }

  lemma {:induction false} PathSurvives<T(!new)>(g: Graph<T>, h: Graph<T>, nodes: set<T>, a: T, x: T, b: T,
                                                 s: seq<T>, n: nat)
    requires Acyclic(g) && Within(g, nodes) && Reduction(g) <= h <= g
    requires (a, x) in g && PathFrom(g, s, x, b) && 0 < n < |s|
    ensures Reach(h, x, s[n])
    decreases |Between(g, nodes, a, b)|, 0, n
  {
    var u, v := s[n - 1], s[n];
    assert (s[n - 1], s[n]) in g;
    EdgeReaches(g, a, x);
    assert Reach(g, x, b);
    EdgeReaches(g, u, v);
    if n > 1 { PrefixReaches(g, s, n - 1); }
    if n < |s| - 1 { SuffixReaches(g, s, n); }
    BetweenShrinks(g, nodes, a, x, b, u, v);
    SubsetSmaller(Between(g, nodes, u, v), Between(g, nodes, a, b));
    EdgeSurvives(g, h, nodes, u, v);
    if n > 1 {
      PathSurvives(g, h, nodes, a, x, b, s, n - 1);
      ReachJoins(h, x, u, v);
    }
  }

  lemma SuffixReaches<T(!new)>(g: Graph<T>, s: seq<T>, i: nat)
    requires Path(g, s) && i < |s| - 1
    ensures Reach(g, s[i], s[|s| - 1])
  {
    var t := s[i..];
    forall j | 0 <= j < |t| - 1 ensures (t[j], t[j + 1]) in g { assert (s[i + j], s[i + j + 1]) in g; }
    assert PathFrom(g, t, s[i], s[|s| - 1]);
  }

  /** So reachability stays the same. */
  lemma ReachSurvives<T(!new)>(g: Graph<T>, h: Graph<T>, nodes: set<T>, a: T, b: T)
    requires Acyclic(g) && Within(g, nodes) && Reduction(g) <= h <= g
    ensures Reach(g, a, b) <==> Reach(h, a, b)
  {
    if Reach(h, a, b) { ReachMonotone(h, g, a, b); }
    if Reach(g, a, b) {
      var s :| PathFrom(g, s, a, b);
      WalkSurvives(g, h, nodes, s, |s| - 1);
    }
  }

  lemma {:induction false} WalkSurvives<T(!new)>(g: Graph<T>, h: Graph<T>, nodes: set<T>, s: seq<T>, n: nat)
    requires Acyclic(g) && Within(g, nodes) && Reduction(g) <= h <= g && Path(g, s) && 0 < n < |s|
    ensures Reach(h, s[0], s[n])
    decreases n
  {
    assert (s[n - 1], s[n]) in g;
    EdgeSurvives(g, h, nodes, s[n - 1], s[n]);
    if n > 1 {
      WalkSurvives(g, h, nodes, s, n - 1);
      ReachJoins(h, s[0], s[n - 1], s[n]);
    }
  }

  lemma DetourSurvives<T(!new)>(g: Graph<T>, h: Graph<T>, nodes: set<T>, a: T, b: T)
    requires Acyclic(g) && Within(g, nodes) && Reduction(g) <= h <= g
    ensures Detour(g, a, b) <==> Detour(h, a, b)
  {
    if Detour(h, a, b) {
      var x :| (a, x) in h && Reach(h, x, b);
      ReachMonotone(h, g, x, b);
    }
    if Detour(g, a, b) {
      var x :| (a, x) in g && Reach(g, x, b);
      EdgeReaches(g, a, x);
      ReachSurvives(g, h, nodes, a, x);
      ReachSurvives(g, h, nodes, x, b);
      var y := FirstEdge(h, a, x);
      if y != x { ReachJoins(h, y, x, b); }
    }
  }

  // ----- the reduction is the reduction

  ghost predicate SameReach<T(!new)>(g: Graph<T>, h: Graph<T>) {
    forall a: T, b: T :: Reach(g, a, b) <==> Reach(h, a, b)
  }

  /** No edge that a longer path also provides. */
  ghost predicate Irredundant<T(!new)>(g: Graph<T>) {
    forall e :: e in g ==> !Detour(g, e.0, e.1)
  }

  /** The reduction preserves reachability and has no superfluous edge. */
  lemma ReductionIsReduced<T(!new)>(g: Graph<T>, nodes: set<T>)
    requires Acyclic(g) && Within(g, nodes)
    ensures SameReach(g, Reduction(g)) && Irredundant(Reduction(g))
  {
    var h := Reduction(g);
    forall a: T, b: T ensures Reach(g, a, b) <==> Reach(h, a, b) { ReachSurvives(g, h, nodes, a, b); }
    forall e | e in h ensures !Detour(h, e.0, e.1) { DetourSurvives(g, h, nodes, e.0, e.1); }
  }

  /** In a graph with the same reachability, an edge without detour must be present. */
  lemma EdgeIsForced<T(!new)>(g: Graph<T>, h: Graph<T>, a: T, b: T)
    requires SameReach(g, h) && (a, b) in g && !Detour(g, a, b)
    ensures (a, b) in h
  {
    EdgeReaches(g, a, b);
    var x := FirstEdge(h, a, b);
    if x != b {
      EdgeReaches(h, a, x);
      var y := FirstEdge(g, a, x);
      if y != x { ReachJoins(g, y, x, b); }
    }
  }

  /** It is the only such graph. */
  lemma ReductionIsUnique<T(!new)>(g: Graph<T>, nodes: set<T>, f: Graph<T>)
    requires Acyclic(g) && Within(g, nodes) && SameReach(g, f) && Irredundant(f)
    ensures f == Reduction(g)
  {
    var h := Reduction(g);
    ReductionIsReduced(g, nodes);
    forall e | e in f ensures e in h { assert SameReach(f, h); EdgeIsForced(f, h, e.0, e.1); }
    forall e | e in h ensures e in f { EdgeIsForced(h, f, e.0, e.1); }
  }
}
