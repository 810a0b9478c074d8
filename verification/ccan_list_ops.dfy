/** Link surgery on rings, and list heads as sequences of nodes. */
module CcanListOps {
  import opened CcanList

  function InsertAt<T>(s: seq<T>, i: nat, x: T): seq<T>
    requires i <= |s|
  {
    s[..i] + [x] + s[i..]
  }

  function RemoveAt<T>(s: seq<T>, i: nat): seq<T>
    requires i < |s|
  {
    s[..i] + s[i + 1..]
  }

  /** list_add_after_: `x` comes right after `p`, at position `i` of the ring. */
  method AddAfter(p: Node, x: Node, ghost ring: seq<Node>, ghost i: nat)
    requires Ring(ring) && i < |ring| && p == ring[i] && x !in ring
    modifies x, ring
    ensures Ring(InsertAt(ring, i + 1, x))
  {
    x.next := p.next;
    x.prev := p;
    p.next.prev := x;
    p.next := x;
  }

  /** list_add_before_: `x` comes right before `p`; before the first node means last. */
  method AddBefore(p: Node, x: Node, ghost ring: seq<Node>, ghost i: nat)
    requires Ring(ring) && i < |ring| && p == ring[i] && x !in ring
    modifies x, ring
    ensures i == 0 ==> Ring(ring + [x])
    ensures i > 0 ==> Ring(InsertAt(ring, i, x))
  {
    assert p.prev == ring[if i == 0 then |ring| - 1 else i - 1];
    x.next := p;
    x.prev := p.prev;
    p.prev.next := x;
    p.prev := x;
  }

  /** list_del_: the rest closes up; the removed node keeps its own links. A lone node stays
      a ring of its own. */
  method Del(x: Node, ghost ring: seq<Node>, ghost i: nat)
    requires Ring(ring) && i < |ring| && x == ring[i]
    modifies ring
    ensures |ring| > 1 ==> Ring(RemoveAt(ring, i)) && x.next == old(x.next) && x.prev == old(x.prev)
    ensures |ring| == 1 ==> Ring(ring)
  {
    x.next.prev := x.prev;
    x.prev.next := x.next;
  }

  /** list_del_init_: the removed node becomes a ring of its own, so that deleting it again
      does no harm. */
  method DelInit(x: Node, ghost ring: seq<Node>, ghost i: nat)
    requires Ring(ring) && i < |ring| && x == ring[i]
    modifies ring
    ensures |ring| > 1 ==> Ring(RemoveAt(ring, i))
    ensures Ring([x])
  {
    Del(x, ring, i);
    x.next, x.prev := x, x;
  }

  /** list_swap_: `x` takes the place of `o`, if `o` is not alone. A lone node is not
      replaced: the two end up in one ring. */
  method Swap(o: Node, x: Node, ghost ring: seq<Node>, ghost i: nat)
    requires Ring(ring) && i < |ring| && o == ring[i] && x !in ring
    modifies x, ring
    ensures |ring| > 1 ==> Ring(ring[i := x]) && o.next == old(o.next) && o.prev == old(o.prev)
    ensures |ring| == 1 ==> Ring([x, o])
  {
    x.next, x.prev := o.next, o.prev;
    x.next.prev := x;
    x.prev.next := x;
  }

  lemma JoinDistinct(ra: seq<Node>, rb: seq<Node>)
    requires forall i, j :: 0 <= i < j < |ra| ==> ra[i] != ra[j]
    requires forall i, j :: 0 <= i < j < |rb| ==> rb[i] != rb[j]
    requires forall x :: x in ra ==> x !in rb
    ensures forall i, j :: 0 <= i < j < |ra + rb| ==> (ra + rb)[i] != (ra + rb)[j]
  {
    forall i, j | 0 <= i < j < |ra + rb|
      ensures (ra + rb)[i] != (ra + rb)[j]
    {
      if i < |ra| <= j { assert ra[i] in ra && rb[j - |ra|] in rb; }
    }
  }

  /** Two rings sewn into one by four assignments: `b` and its followers come last. */
  method SewLast(a: Node, b: Node, ghost ra: seq<Node>, ghost rb: seq<Node>)
    requires Ring(ra) && Ring(rb) && a == ra[0] && b == rb[0]
    requires forall x :: x in ra ==> x !in rb
    modifies ra, rb
    ensures Ring(ra + rb)
  {
    JoinDistinct(ra, rb);
    var bTail, aTail := b.prev, a.prev;
    assert aTail in ra && bTail in rb;
    a.prev := bTail;
    bTail.next := a;
    aTail.next := b;
    b.prev := aTail;
  }

  /** A ring may be read from any of its nodes. */
  lemma RotateLeft(s: seq<Node>)
    requires Ring(s)
    ensures Ring(s[1..] + [s[0]])
  {
    var t := s[1..] + [s[0]];
    assert forall i :: 0 <= i < |s| - 1 ==> t[i] == s[i + 1];
  }

  lemma RotateRight(s: seq<Node>)
    requires Ring(s)
    ensures Ring([s[|s| - 1]] + s[..|s| - 1])
  {
    var t := [s[|s| - 1]] + s[..|s| - 1];
    assert forall i :: 0 < i < |s| ==> t[i] == s[i - 1];
  }

  lemma SameNodes(ra: seq<Node>)
    requires |ra| > 0
    ensures forall x :: x in ra[1..] + [ra[0]] <==> x in ra
  {
    assert ra == [ra[0]] + ra[1..];
  }

  lemma LastFirst(ra: seq<Node>, rb: seq<Node>)
    requires |ra| > 0
    ensures var s := rb + (ra[1..] + [ra[0]]); [s[|s| - 1]] + s[..|s| - 1] == [ra[0]] + rb + ra[1..]
  {
  }

  /** Two rings sewn into one by four assignments, `a` being the last node of its ring. */
  method SewBehind(a: Node, b: Node, ghost ra: seq<Node>, ghost rb: seq<Node>)
    requires Ring(ra) && Ring(rb) && a == ra[|ra| - 1] && b == rb[0]
    requires forall x :: x in ra ==> x !in rb
    modifies ra, rb
    ensures Ring(rb + ra)
  {
    JoinDistinct(rb, ra);
    var bTail, aHead := b.prev, a.next;
    assert bTail in rb && aHead in ra;
    a.next := b;
    b.prev := a;
    aHead.prev := bTail;
    bTail.next := aHead;
  }

  /** The same with `b` and its followers right after `a`. */
  method SewFirst(a: Node, b: Node, ghost ra: seq<Node>, ghost rb: seq<Node>)
    requires Ring(ra) && Ring(rb) && a == ra[0] && b == rb[0]
    requires forall x :: x in ra ==> x !in rb
    modifies ra, rb
    ensures Ring([a] + rb + ra[1..])
  {
    RotateLeft(ra);
    SameNodes(ra);
    SewBehind(a, b, ra[1..] + [a], rb);
    RotateRight(rb + (ra[1..] + [a]));
    LastFirst(ra, rb);
  }

  /** Sew `b`'s ring in at the end, then take `b` itself out. */
  method MoveLast(a: Node, b: Node, ghost s: seq<Node>, ghost t: seq<Node>)
    requires Ring([a] + s) && Ring([b] + t)
    requires forall x :: x in [a] + s ==> x !in [b] + t
    modifies a, s, b, t
    ensures Ring([a] + (s + t)) && Ring([b])
  {
    SewLast(a, b, [a] + s, [b] + t);
    DelInit(b, [a] + s + ([b] + t), |s| + 1);
    TakenLast(a, s, b, t);
  }

  lemma TakenLast(a: Node, s: seq<Node>, b: Node, t: seq<Node>)
    ensures RemoveAt([a] + s + ([b] + t), |s| + 1) == [a] + (s + t)
  {
  }

  /** Sew `b`'s ring in at the start, then take `b` itself out. */
  method MoveFirst(a: Node, b: Node, ghost s: seq<Node>, ghost t: seq<Node>)
    requires Ring([a] + s) && Ring([b] + t)
    requires forall x :: x in [a] + s ==> x !in [b] + t
    modifies a, s, b, t
    ensures Ring([a] + (t + s)) && Ring([b])
  {
    SewFirst(a, b, [a] + s, [b] + t);
    TakenFirst(a, s, b, t);
    DelInit(b, [a] + ([b] + t) + ([a] + s)[1..], 1);
  }

  lemma TakenFirst(a: Node, s: seq<Node>, b: Node, t: seq<Node>)
    ensures var r := [a] + ([b] + t) + ([a] + s)[1..]; r[1] == b && RemoveAt(r, 1) == [a] + (t + s)
  {
    assert ([a] + s)[1..] == s;
  }

  /** A list head: a sentinel node, and the sequence of nodes on the list. */
  class ListHead {
    const n: Node
    ghost var nodes: seq<Node>

    ghost predicate Valid()
      reads this, n, nodes
    {
      Ring([n] + nodes)
    }

    /** The sentinel is not an entry. */
    lemma Apart(i: nat)
      requires Valid() && i < |nodes|
      ensures nodes[i] != n
    {
      assert ([n] + nodes)[0] != ([n] + nodes)[i + 1];
    }

    constructor ()
      ensures Valid() && nodes == [] && fresh(n)
    {
      n := new Node();
      nodes := [];
    }

    method Empty() returns (b: bool)
      requires Valid()
      ensures b <==> nodes == []
    {
      assert ([n] + nodes)[0] == n;
      b := n.next == n;
      assert nodes != [] ==> ([n] + nodes)[1] == nodes[0];
    }

    method Top() returns (r: Node?)
      requires Valid()
      ensures r == if nodes == [] then null else nodes[0]
    {
      var empty := Empty();
      assert nodes != [] ==> ([n] + nodes)[0].next == ([n] + nodes)[1];
      return if empty then null else n.next;
    }

    method Tail() returns (r: Node?)
      requires Valid()
      ensures r == if nodes == [] then null else nodes[|nodes| - 1]
    {
      var empty := Empty();
      assert ([n] + nodes)[0].prev == ([n] + nodes)[|nodes|];
      return if empty then null else n.prev;
    }

    /** The node `next` to the sentinel, which is the sentinel itself on an empty list. */
    method First() returns (r: Node)
      requires Valid()
      ensures r == if nodes == [] then n else nodes[0]
    {
      ghost var ring := [n] + nodes;
      assert ring[0].next == if nodes == [] then n else ring[1];
      return n.next;
    }

    /** The node `next` to `x`, the sentinel or the entry at position `i`. */
    method After(x: Node, ghost i: nat) returns (r: Node)
      requires Valid() && (x == n || (i < |nodes| && x == nodes[i]))
      ensures x == n ==> r == if nodes == [] then n else nodes[0]
      ensures x != n ==> r == if i + 1 < |nodes| then nodes[i + 1] else n
    {
      ghost var ring := [n] + nodes;
      ghost var k := if x == n then 0 else i + 1;
      assert ring[k].next == if k == |nodes| then n else ring[k + 1];
      return x.next;
    }

    method Add(x: Node)
      requires Valid() && x != n && x !in nodes
      modifies this`nodes, n, x, nodes
      ensures Valid() && nodes == [x] + old(nodes)
    {
      AddAfter(n, x, [n] + nodes, 0);
      assert InsertAt([n] + nodes, 1, x) == [n] + ([x] + nodes);
      nodes := [x] + nodes;
    }

    method AddTail(x: Node)
      requires Valid() && x != n && x !in nodes
      modifies this`nodes, n, x, nodes
      ensures Valid() && nodes == old(nodes) + [x]
    {
      AddBefore(n, x, [n] + nodes, 0);
      assert [n] + nodes + [x] == [n] + (nodes + [x]);
      nodes := nodes + [x];
    }

    method Remove(x: Node, ghost i: nat)
      requires Valid() && i < |nodes| && x == nodes[i]
      modifies this`nodes, n, nodes
      ensures Valid() && nodes == RemoveAt(old(nodes), i)
      ensures x.next == old(x.next)
    {
      Del(x, [n] + nodes, i + 1);
      assert RemoveAt([n] + nodes, i + 1) == [n] + RemoveAt(nodes, i);
      nodes := RemoveAt(nodes, i);
    }

    /** An entry on a list always has the sentinel beside it, so replacing it works. */
    method Replace(o: Node, x: Node, ghost i: nat)
      requires Valid() && i < |nodes| && o == nodes[i] && x != n && x !in nodes
      modifies this`nodes, n, x, nodes
      ensures Valid() && nodes == old(nodes)[i := x]
    {
      Swap(o, x, [n] + nodes, i + 1);
      assert ([n] + nodes)[i + 1 := x] == [n] + nodes[i := x];
      nodes := nodes[i := x];
    }

    method Pop() returns (r: Node?)
      requires Valid()
      modifies this`nodes, n, nodes
      ensures Valid()
      ensures old(nodes) == [] ==> r == null && nodes == []
      ensures old(nodes) != [] ==> r == old(nodes)[0] && nodes == old(nodes)[1..]
    {
      r := Top();
      if r == null {
        return;
      }
      Remove(r, 0);
      assert RemoveAt(old(nodes), 0) == old(nodes)[1..];
    }

    /** list_append_list: everything on `from` moves to the end of this list. */
    method Append(from: ListHead)
      requires Valid() && from.Valid() && from != this
      requires forall x :: x in [n] + nodes ==> x !in [from.n] + from.nodes
      modifies this`nodes, n, nodes, from`nodes, from.n, from.nodes
      ensures Valid() && from.Valid()
      ensures nodes == old(nodes) + old(from.nodes) && from.nodes == []
    {
      MoveLast(n, from.n, nodes, from.nodes);
      assert [from.n] + [] == [from.n];
      nodes, from.nodes := nodes + from.nodes, [];
    }

    /** list_prepend_list: everything on `from` moves to the start of this list. */
    method Prepend(from: ListHead)
      requires Valid() && from.Valid() && from != this
      requires forall x :: x in [n] + nodes ==> x !in [from.n] + from.nodes
      modifies this`nodes, n, nodes, from`nodes, from.n, from.nodes
      ensures Valid() && from.Valid()
      ensures nodes == old(from.nodes) + old(nodes) && from.nodes == []
    {
      MoveFirst(n, from.n, nodes, from.nodes);
      assert [from.n] + [] == [from.n];
      nodes, from.nodes := from.nodes + nodes, [];
    }
  }

  /** The nodes not in `gone`, in order. */
  function Keep(s: seq<Node>, gone: set<Node>): seq<Node> {
    if s == [] then []
    else Keep(s[..|s| - 1], gone) + if s[|s| - 1] in gone then [] else [s[|s| - 1]]
  }

  /** The list after `k` rounds: what is kept of the visited part, then the rest. */
  function Partly(was: seq<Node>, k: nat, gone: set<Node>): seq<Node>
    requires k <= |was|
  {
    Keep(was[..k], gone) + was[k..]
  }

  /** Before the first round the list is as it was; after the last, only what is kept is left. */
  lemma PartlyEnds(was: seq<Node>, gone: set<Node>)
    ensures Partly(was, 0, gone) == was && Partly(was, |was|, gone) == Keep(was, gone)
  {
    assert was[..0] == [] && was[0..] == was && was[..|was|] == was && was[|was|..] == [];
  }

  lemma PartlyNext(was: seq<Node>, k: nat, gone: set<Node>)
    requires k < |was|
    ensures var at := |Keep(was[..k], gone)|;
            && at < |Partly(was, k, gone)| && Partly(was, k, gone)[at] == was[k]
            && (was[k] in gone ==> RemoveAt(Partly(was, k, gone), at) == Partly(was, k + 1, gone))
            && (was[k] !in gone ==> Partly(was, k + 1, gone) == Partly(was, k, gone))
            && |Keep(was[..k + 1], gone)| == if was[k] in gone then at else at + 1
  {
    assert was[..k + 1][..k] == was[..k];
  }

  /** Where the iteration stands after `k` rounds: entry `k`, or the sentinel. */
  function Stop(was: seq<Node>, k: nat, n: Node): Node {
    if k < |was| then was[k] else n
  }

  /** The list at the head of round `k`, with `i` the node to visit. */
  ghost predicate AtRound(h: ListHead, was: seq<Node>, k: nat, gone: set<Node>, i: Node)
    reads h, h.n, h.nodes
  {
    && k <= |was| && h.Valid() && h.nodes == Partly(was, k, gone)
    && i == Stop(was, k, h.n) && (k < |was| ==> i != h.n)
  }

  /** The body of the loop: it may take the current node off the list. */
  method Body(h: ListHead, i: Node, gone: set<Node>, ghost was: seq<Node>, ghost k: nat, ghost cells: set<Node>)
    requires AtRound(h, was, k, gone, i) && k < |was|
    requires h.n in cells && forall j :: 0 <= j < |h.nodes| ==> h.nodes[j] in cells
    modifies h`nodes, cells
    ensures h.Valid() && h.nodes == Partly(was, k + 1, gone)
    ensures forall j :: 0 <= j < |h.nodes| ==> h.nodes[j] in cells
  {
    PartlyNext(was, k, gone);
    if i in gone {
      h.Remove(i, |Keep(was[..k], gone)|);
    }
  }

  /** `i->next` at the head of round `k`. */
  method NextStop(h: ListHead, i: Node, ghost was: seq<Node>, ghost k: nat, ghost gone: set<Node>) returns (nxt: Node)
    requires AtRound(h, was, k, gone, i)
    ensures k < |was| ==> nxt == Stop(was, k + 1, h.n)
  {
    ghost var at := |Keep(was[..k], gone)|;
    if k < |was| { PartlyNext(was, k, gone); }
    nxt := h.After(i, at);
  }

  lemma StopApart(h: ListHead, was: seq<Node>, k: nat, gone: set<Node>)
    requires h.Valid() && k <= |was| && h.nodes == Partly(was, k, gone)
    ensures k < |was| ==> was[k] != h.n
  {
    if k < |was| {
      PartlyNext(was, k, gone);
      h.Apart(|Keep(was[..k], gone)|);
    }
  }

  /** One round: run the body, then step to the node saved beforehand. */
  method Round(h: ListHead, i: Node, nxt: Node, gone: set<Node>, ghost was: seq<Node>, ghost k: nat,
               ghost cells: set<Node>)
    returns (i': Node, nxt': Node)
    requires AtRound(h, was, k, gone, i) && k < |was| && nxt == Stop(was, k + 1, h.n)
    requires h.n in cells && forall j :: 0 <= j < |h.nodes| ==> h.nodes[j] in cells
    modifies h`nodes, cells
    ensures AtRound(h, was, k + 1, gone, i') && (k + 1 < |was| ==> nxt' == Stop(was, k + 2, h.n))
    ensures forall j :: 0 <= j < |h.nodes| ==> h.nodes[j] in cells
  {
    Body(h, i, gone, was, k, cells);
    StopApart(h, was, k + 1, gone);
    i' := nxt;
    nxt' := NextStop(h, i', was, k + 1, gone);
  }

  /** The loop of list_for_each_safe. */
  method Iterate(h: ListHead, first: Node, second: Node, gone: set<Node>, ghost was: seq<Node>, ghost cells: set<Node>)
    returns (visited: seq<Node>)
    requires AtRound(h, was, 0, gone, first) && (was != [] ==> second == Stop(was, 1, h.n))
    requires h.n in cells && forall j :: 0 <= j < |h.nodes| ==> h.nodes[j] in cells
    modifies h`nodes, cells
    ensures visited == was && AtRound(h, was, |was|, gone, h.n)
  {
    visited := [];
    ghost var k := 0;
    var i, nxt := first, second;
    while i != h.n
      invariant 0 <= k <= |was| && visited == was[..k]
      invariant AtRound(h, was, k, gone, i) && (k < |was| ==> nxt == Stop(was, k + 1, h.n))
      invariant forall j :: 0 <= j < |h.nodes| ==> h.nodes[j] in cells
      decreases |was| - k
    {
      visited := visited + [i];
      i, nxt := Round(h, i, nxt, gone, was, k, cells);
      k := k + 1;
    }
  }

  /** list_for_each_safe with a body that deletes the current node when it is in `gone`:
      every node that was on the list is visited, once and in order, and exactly the others
      remain. */
  method ForEachSafe(h: ListHead, gone: set<Node>) returns (visited: seq<Node>)
    requires h.Valid()
    modifies h`nodes, h.n, h.nodes
    ensures h.Valid()
    ensures visited == old(h.nodes) && h.nodes == Keep(old(h.nodes), gone)
  {
    visited := Visit(h, gone, {h.n} + set x | x in h.nodes);
  }

  method Visit(h: ListHead, gone: set<Node>, ghost cells: set<Node>) returns (visited: seq<Node>)
    requires h.Valid() && h.n in cells && forall j :: 0 <= j < |h.nodes| ==> h.nodes[j] in cells
    modifies h`nodes, cells
    ensures h.Valid()
    ensures visited == old(h.nodes) && h.nodes == Keep(old(h.nodes), gone)
  {
    ghost var was := h.nodes;
    PartlyEnds(was, gone);
    StopApart(h, was, 0, gone);
    var i := h.First();
    var nxt := NextStop(h, i, was, 0, gone);
    visited := Iterate(h, i, nxt, gone, was, cells);
  }
}
