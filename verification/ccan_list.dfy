/** The nodes of the intrusive circular doubly linked list: rings, and the consistency check. */
module CcanList {

  class Node {
    var next: Node?
    var prev: Node?

    /** list_node_init. */
    constructor ()
      ensures Ring([this])
    {
      next, prev := this, this;
    }
  }

  /** `s` is a ring: distinct nodes, each linked to the one after it and back, and the last
      linked to the first. */
  ghost predicate Ring(s: seq<Node>)
    reads s
  {
    && |s| > 0
    && (forall i, j :: 0 <= i < j < |s| ==> s[i] != s[j])
    && (forall i {:trigger s[i].next} :: 0 <= i < |s| - 1 ==> s[i].next == s[i + 1])
    && (forall i {:trigger s[i].prev} :: 0 < i < |s| ==> s[i].prev == s[i - 1])
    && s[|s| - 1].next == s[0] && s[0].prev == s[|s| - 1]
  }

  // ----- list_check_node

  /** A set of nodes from which no `next` pointer leads out; `prev` may point anywhere. */
  ghost predicate Closed(heap: set<Node>)
    reads heap
  {
    forall n :: n in heap ==> n.next != null && n.next in heap
  }

  /** The first `k` nodes met by following `next`. */
  ghost function Walk(node: Node, heap: set<Node>, k: nat): (s: seq<Node>)
    requires Closed(heap) && node in heap
    reads heap
    ensures |s| == k && forall i :: 0 <= i < k ==> s[i] in heap
    decreases k
  {
    if k == 0 then [] else [node] + Walk(node.next, heap, k - 1)
  }

  /** The nodes reached from `node` by `next` form one ring through it. */
  ghost predicate OnRing(node: Node, heap: set<Node>)
    requires Closed(heap) && node in heap
    reads heap
  {
    exists k: nat :: k > 0 && Ring(Walk(node, heap, k))
  }

  /** A longer walk starts like a shorter one. */
  lemma {:induction false} WalkPrefix(node: Node, heap: set<Node>, j: nat, k: nat)
    requires Closed(heap) && node in heap && j <= k
    ensures Walk(node, heap, k)[..j] == Walk(node, heap, j)
    decreases k
  {
    if j > 0 { WalkPrefix(node.next, heap, j - 1, k - 1); }
  }

  lemma {:induction false} WalkSteps(node: Node, heap: set<Node>, k: nat, i: nat)
    requires Closed(heap) && node in heap && i + 1 < k
    ensures Walk(node, heap, k)[i + 1] == Walk(node, heap, k)[i].next
    decreases k
  {
    if i > 0 { WalkSteps(node.next, heap, k - 1, i - 1); } else { assert k - 1 > 0; }
  }

  /** What the loop of the check knows: the nodes visited so far are distinct and linked
      backwards as well as forwards. */
  ghost predicate Chain(s: seq<Node>)
    reads s
  {
    && (forall i, j :: 0 <= i < j < |s| ==> s[i] != s[j])
    && (forall i {:trigger s[i].prev} :: 0 < i < |s| ==> s[i].prev == s[i - 1])
  }

  /** A chain that is all but a ring decides the question: only its own length can be the
      length of the ring. */
  lemma ChainLength(node: Node, heap: set<Node>, k: nat, r: nat)
    requires Closed(heap) && node in heap && k > 0 && r > 0
    requires Chain(Walk(node, heap, k)) && Ring(Walk(node, heap, r))
    ensures k <= r
    ensures k < r ==> Walk(node, heap, k + 1)[k] != node
    ensures k < r ==> Walk(node, heap, k + 1)[k].prev == Walk(node, heap, k)[k - 1]
  {
    if r < k {
      WalkPrefix(node, heap, r, k);
      WalkPrefix(node, heap, r, r + 1);
      WalkPrefix(node, heap, r + 1, k);
      WalkSteps(node, heap, r + 1, r - 1);
    } else if k < r {
      WalkPrefix(node, heap, k + 1, r);
      WalkPrefix(node, heap, k, k + 1);
      var w := Walk(node, heap, r);
      assert Walk(node, heap, k + 1)[k] == w[k] && Walk(node, heap, k)[k - 1] == w[k - 1];
      assert w[0] == node;
    }
  }

  /** Where a chain meets a node whose `prev` is not its end, there is no ring. */
  lemma NotOnRing(node: Node, heap: set<Node>, k: nat)
    requires Closed(heap) && node in heap && k > 0 && Chain(Walk(node, heap, k))
    requires Walk(node, heap, k + 1)[k].prev != Walk(node, heap, k)[k - 1]
    ensures !OnRing(node, heap)
  {
    forall r: nat | r > 0
      ensures !Ring(Walk(node, heap, r))
    {
      if Ring(Walk(node, heap, r)) {
        ChainLength(node, heap, k, r);
        WalkPrefix(node, heap, k, k + 1);
        WalkSteps(node, heap, k + 1, k - 1);
      }
    }
  }

  /** Where a chain leads back to its start and the start points back at its end, it is a ring. */
  lemma ChainClosed(node: Node, heap: set<Node>, k: nat)
    requires Closed(heap) && node in heap && k > 0 && Chain(Walk(node, heap, k))
    requires Walk(node, heap, k)[k - 1].next == node && node.prev == Walk(node, heap, k)[k - 1]
    ensures Ring(Walk(node, heap, k))
  {
    forall i | 0 <= i < k - 1
      ensures Walk(node, heap, k)[i].next == Walk(node, heap, k)[i + 1]
    {
      WalkSteps(node, heap, k, i);
    }
  }

  /** One more step of the walk. */
  lemma WalkGrows(node: Node, heap: set<Node>, k: nat)
    requires Closed(heap) && node in heap && k > 0
    ensures Walk(node, heap, k + 1) == Walk(node, heap, k) + [Walk(node, heap, k)[k - 1].next]
  {
    WalkPrefix(node, heap, k, k + 1);
    WalkSteps(node, heap, k + 1, k - 1);
  }

  /** Terminates on every heap that is closed under `next`, however corrupt, and returns the
      node exactly when it lies on a ring. */
  method CheckNode(node: Node, ghost heap: set<Node>) returns (r: Node?)
    requires Closed(heap) && node in heap
    ensures r == node || r == null
    ensures r == node <==> OnRing(node, heap)
  {
    var p: Node, n := node, node.next;
    ghost var w, unseen := [node], heap - {node};
    assert Walk(node, heap, 1) == w;
    while n != node
      invariant |w| > 0 && w == Walk(node, heap, |w|) && w[0] == node && Chain(w)
      invariant n != null && n in heap && p == w[|w| - 1] && n == p.next
      invariant forall x :: x in heap && x !in unseen ==> x in w
      decreases unseen
    {
      WalkGrows(node, heap, |w|);
      if n.prev != p {
        NotOnRing(node, heap, |w|);
        return null;
      }
      ChainGrows(w, n);
      p, n, w, unseen := n, n.next, w + [n], unseen - {n};
    }
    if node.prev != p {
      WalkGrows(node, heap, |w|);
      NotOnRing(node, heap, |w|);
      return null;
    }
    ChainClosed(node, heap, |w|);
    return node;
  }

  /** A node whose predecessor is the end of a chain, and which is not its first node, was
      not visited before: `prev` tells visited nodes apart. */
  lemma ChainGrows(w: seq<Node>, n: Node)
    requires Chain(w) && |w| > 0 && n.prev == w[|w| - 1] && n != w[0]
    ensures n !in w && Chain(w + [n])
  {
    forall i | 0 <= i < |w|
      ensures w[i] != n
    {
      if i > 0 { assert w[i].prev == w[i - 1]; }
    }
  }

  // ----- the ring, said without a ring: `prev` undoes `next` wherever `next` leads

  ghost function At(node: Node, heap: set<Node>, k: nat): (n: Node)
    requires Closed(heap) && node in heap
    reads heap
    ensures n in heap
    decreases k
  {
    if k == 0 then node else At(node, heap, k - 1).next
  }

  ghost predicate PrevUndoesNext(node: Node, heap: set<Node>)
    requires Closed(heap) && node in heap
    reads heap
  {
    forall k: nat :: At(node, heap, k).next.prev == At(node, heap, k)
  }

  lemma {:induction false} WalkAt(node: Node, heap: set<Node>, k: nat, i: nat)
    requires Closed(heap) && node in heap && i < k
    ensures Walk(node, heap, k)[i] == At(node, heap, i)
    decreases i
  {
    if i > 0 {
      WalkAt(node, heap, k, i - 1);
      WalkSteps(node, heap, k, i - 1);
    }
  }

  lemma {:induction false} RingIsClosed(node: Node, heap: set<Node>, s: seq<Node>, k: nat)
    requires Closed(heap) && node in heap && Ring(s) && node in s
    ensures At(node, heap, k) in s
    decreases k
  {
    if k > 0 {
      RingIsClosed(node, heap, s, k - 1);
      var i :| 0 <= i < |s| && s[i] == At(node, heap, k - 1);
      assert s[i].next == if i == |s| - 1 then s[0] else s[i + 1];
    }
  }

  /** Equal nodes on the way have equal predecessors, back to the start. */
  lemma {:induction false} Rewind(node: Node, heap: set<Node>, i: nat, j: nat)
    requires Closed(heap) && node in heap && PrevUndoesNext(node, heap)
    requires i < j && At(node, heap, i) == At(node, heap, j)
    ensures At(node, heap, j - i) == node
    decreases i
  {
    if i > 0 {
      assert At(node, heap, i - 1).next.prev == At(node, heap, i - 1);
      assert At(node, heap, j - 1).next.prev == At(node, heap, j - 1);
      Rewind(node, heap, i - 1, j - 1);
    }
  }

  lemma {:induction false} DistinctFits(s: seq<Node>, heap: set<Node>)
    requires forall i, j :: 0 <= i < j < |s| ==> s[i] != s[j]
    requires forall i :: 0 <= i < |s| ==> s[i] in heap
    ensures |s| <= |heap|
    decreases |s|
  {
    if s != [] {
      var last := s[|s| - 1];
      DistinctFits(s[..|s| - 1], heap - {last});
    }
  }

  lemma ReturnsToStart(node: Node, heap: set<Node>) returns (r: nat)
    requires Closed(heap) && node in heap && PrevUndoesNext(node, heap)
    ensures r > 0 && At(node, heap, r) == node
  {
    var s := Walk(node, heap, |heap| + 1);
    forall i | 0 <= i < |s| ensures s[i] == At(node, heap, i) { WalkAt(node, heap, |s|, i); }
    if forall i, j :: 0 <= i < j < |s| ==> s[i] != s[j] {
      DistinctFits(s, heap);
      assert false;
    }
    var i, j :| 0 <= i < j < |s| && s[i] == s[j];
    Rewind(node, heap, i, j);
    r := j - i;
  }

  lemma {:induction false} FirstReturn(node: Node, heap: set<Node>, r: nat) returns (k: nat)
    requires Closed(heap) && node in heap && r > 0 && At(node, heap, r) == node
    ensures k > 0 && At(node, heap, k) == node && forall i :: 0 < i < k ==> At(node, heap, i) != node
    decreases r
  {
    if i :| 0 < i < r && At(node, heap, i) == node {
      k := FirstReturn(node, heap, i);
    } else {
      k := r;
    }
  }

  /** A node is on a ring if and only if `prev` undoes `next` at every node that can be
      reached from it. */
  lemma RingIffInverse(node: Node, heap: set<Node>)
    requires Closed(heap) && node in heap
    ensures OnRing(node, heap) <==> PrevUndoesNext(node, heap)
  {
    if OnRing(node, heap) {
      var r: nat :| r > 0 && Ring(Walk(node, heap, r));
      var s := Walk(node, heap, r);
      assert s[0] == node;
      forall k: nat
        ensures At(node, heap, k).next.prev == At(node, heap, k)
      {
        RingIsClosed(node, heap, s, k);
        var i :| 0 <= i < |s| && s[i] == At(node, heap, k);
        assert s[i].next == if i == |s| - 1 then s[0] else s[i + 1];
      }
    }
    if PrevUndoesNext(node, heap) {
      var r := ReturnsToStart(node, heap);
      var k := FirstReturn(node, heap, r);
      InverseGivesRing(node, heap, k);
    }
  }

  lemma InverseGivesRing(node: Node, heap: set<Node>, k: nat)
    requires Closed(heap) && node in heap && PrevUndoesNext(node, heap)
    requires k > 0 && At(node, heap, k) == node && forall i :: 0 < i < k ==> At(node, heap, i) != node
    ensures Ring(Walk(node, heap, k))
  {
    var s := Walk(node, heap, k);
    forall i | 0 <= i < k
      ensures s[i] == At(node, heap, i) && s[i].next == At(node, heap, i + 1) && At(node, heap, i + 1).prev == s[i]
    {
      WalkAt(node, heap, k, i);
      assert At(node, heap, i).next.prev == At(node, heap, i);
    }
    forall i, j | 0 <= i < j < k
      ensures s[i] != s[j]
    {
      if s[i] == s[j] { Rewind(node, heap, i, j); }
    }
  }
}
