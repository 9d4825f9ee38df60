/** The A* frontier (`algo.PriorityQueue`) and the binary-heap operations of
    Go's `container/heap` that drive it, over an immutable sequence of nodes.

    The heap is 0-based: the parent of position k > 0 is (k - 1) / 2 and its
    children are 2k + 1 and 2k + 2. Go computes the parent of position 0 as
    (0 - 1) / 2 == 0 with truncating division and stops there; this model
    tests for position 0 directly. */
module PriorityQueue {
  import opened Points
  import opened Wrappers

  /** One cell of the search. The Go `Parent *Node` pointer is represented by
      the parent's coordinate, which is all that path reconstruction reads. */
  datatype Node = Node(point: Point, parent: Option<Point>, gCost: int, hCost: int, fCost: int, heapIndex: int)

  type Queue = seq<Node>

  /** A node with only the fields the caller sets, as the tests build them. */
  function MakeNode(p: Point, f: int, h: int): (n: Node)
    ensures n.point == p && n.fCost == f && n.hCost == h
    ensures n.parent == None && n.gCost == 0 && n.heapIndex == 0
  {
    Node(p, None, 0, h, f, 0)
  }

  // ---------------------------------------------------------------------------
  // heap.Interface methods of PriorityQueue
  // ---------------------------------------------------------------------------

  /** The queue order: lower FCost first, ties broken by lower HCost. */
  function Less(a: Node, b: Node): (lt: bool)
    ensures a.fCost < b.fCost ==> lt
    ensures lt ==> a.fCost <= b.fCost
    ensures a.fCost == b.fCost ==> (lt <==> a.hCost < b.hCost)
  {
    if a.fCost == b.fCost then a.hCost < b.hCost else a.fCost < b.fCost
  }

  /** Exchanges two entries and records each one's new position. */
  function Swap(q: Queue, i: int, j: int): (r: Queue)
    requires 0 <= i < |q| && 0 <= j < |q|
    ensures |r| == |q|
    ensures r[i] == q[j].(heapIndex := i) && r[j] == q[i].(heapIndex := j)
    ensures forall k :: 0 <= k < |q| && k != i && k != j ==> r[k] == q[k]
  {
    q[i := q[j].(heapIndex := i)][j := q[i].(heapIndex := j)]
  }

  /** Appends a node, recording the old length as its position. */
  function Push(q: Queue, x: Node): (r: Queue)
    ensures |r| == |q| + 1 && r[..|q|] == q
    ensures r[|q|] == x.(heapIndex := |q|)
  {
    q + [x.(heapIndex := |q|)]
  }

  /** Removes the last node and marks it as no longer queued (position -1). */
  function Pop(q: Queue): (r: (Queue, Node))
    requires |q| > 0
    ensures r.0 == q[..|q| - 1] && |r.0| == |q| - 1
    ensures r.1 == q[|q| - 1].(heapIndex := -1)
  {
    (q[..|q| - 1], q[|q| - 1].(heapIndex := -1))
  }

  // ---------------------------------------------------------------------------
  // Order, positions and contents
  // ---------------------------------------------------------------------------

  /** Less is a strict order: irreflexive and transitive, and its
      complement is transitive as well, so sifting may chain comparisons. */
  lemma LessOrder(a: Node, b: Node, c: Node)
    ensures !Less(a, a)
    ensures Less(a, b) ==> !Less(b, a)
    ensures Less(a, b) && Less(b, c) ==> Less(a, c)
    ensures !Less(a, b) && !Less(b, c) ==> !Less(a, c)
  {
  }

  /** Less reads only the two costs, never the position. */
  lemma LessIgnoresPosition(a: Node, b: Node, i: int, j: int)
    ensures Less(a, b) == Less(a.(heapIndex := i), b.(heapIndex := j))
  {
  }

  /** Every node knows its own position: the invariant the A* search relies
      on when it calls Fix with a node's HeapIndex. */
  predicate Indexed(q: Queue) {
    forall k :: 0 <= k < |q| ==> q[k].heapIndex == k
  }

  /** The queued nodes with their positions erased. */
  function Strip(q: Queue): (s: seq<Node>)
    ensures |s| == |q|
    ensures forall k :: 0 <= k < |q| ==> s[k] == q[k].(heapIndex := 0)
  {
    seq(|q|, k requires 0 <= k < |q| => q[k].(heapIndex := 0))
  }

  /** The cells of the queued nodes, in queue order. */
  function PointsOf(q: Queue): (ps: seq<Point>)
    ensures |ps| == |q|
    ensures forall k :: 0 <= k < |q| ==> ps[k] == q[k].point
  {
    seq(|q|, k requires 0 <= k < |q| => q[k].point)
  }

  /** The same nodes, in any order and at any positions. */
  predicate Perm(a: Queue, b: Queue) {
    multiset(Strip(a)) == multiset(Strip(b)) && multiset(PointsOf(a)) == multiset(PointsOf(b))
  }

  lemma SwapKeeps(q: Queue, i: int, j: int)
    requires 0 <= i < |q| && 0 <= j < |q|
    ensures Perm(Swap(q, i, j), q)
    ensures Indexed(q) ==> Indexed(Swap(q, i, j))
  {
    var s := Strip(q);
    assert Strip(Swap(q, i, j)) == s[i := s[j]][j := s[i]];
    var ps := PointsOf(q);
    assert PointsOf(Swap(q, i, j)) == ps[i := ps[j]][j := ps[i]];
  }

  /** Push followed by Pop gives back the queue and the node. */
  lemma PushPop(q: Queue, x: Node)
    ensures Pop(Push(q, x)) == (q, x.(heapIndex := -1))
    ensures Indexed(q) ==> Indexed(Push(q, x))
    ensures Indexed(q) && |q| > 0 ==> Indexed(Pop(q).0)
  {
  }

  // ---------------------------------------------------------------------------
  // container/heap
  // ---------------------------------------------------------------------------

  function Parent(k: int): (p: nat)
    requires k > 0
    ensures p < k && (k == 2 * p + 1 || k == 2 * p + 2)
  {
    (k - 1) / 2
  }

  /** The heap property: no node sorts before its parent. */
  predicate IsHeap(q: Queue) {
    forall k :: 0 < k < |q| ==> !Less(q[k], q[Parent(k)])
  }

  /** The heap property on the first n positions, for parents at lo or later. */
  predicate HeapFrom(q: Queue, lo: nat, n: nat)
    requires n <= |q|
  {
    forall k :: 0 < k < n && lo <= Parent(k) ==> !Less(q[k], q[Parent(k)])
  }

  /** `up`: moves the node at j towards the root while it sorts before its parent. */
  function SiftUp(q: Queue, j: nat): (r: Queue)
    requires j < |q|
    ensures |r| == |q| && Perm(r, q)
    ensures Indexed(q) ==> Indexed(r)
    ensures forall k :: j < k < |q| ==> r[k] == q[k]
    decreases j
  {
    if j == 0 then q
    else
      var i := Parent(j);
      if !Less(q[j], q[i]) then q
      else
        SwapKeeps(q, i, j);
        SiftUp(Swap(q, i, j), i)
  }

  /** `down`: moves the node at i away from the root, within the first n
      positions, while some child sorts before it; the result carries the
      node's final position (Go reports only whether it moved). */
  function SiftDown(q: Queue, i: nat, n: nat): (r: (Queue, nat))
    requires i < |q| && n <= |q|
    ensures |r.0| == |q| && Perm(r.0, q)
    ensures Indexed(q) ==> Indexed(r.0)
    ensures i <= r.1 < |q|
    ensures forall k :: 0 <= k < |q| && (k < i || n <= k) ==> r.0[k] == q[k]
    decreases n - i
  {
    var j1 := 2 * i + 1;
    if j1 >= n then (q, i)
    else
      var j := if j1 + 1 < n && Less(q[j1 + 1], q[j1]) then j1 + 1 else j1;
      if !Less(q[j], q[i]) then (q, i)
      else
        SwapKeeps(q, i, j);
        SiftDown(Swap(q, i, j), j, n)
  }

  /** `heap.Push`: append, then sift the new node up. */
  function HeapPush(q: Queue, x: Node): (r: Queue)
    ensures |r| == |q| + 1
    ensures multiset(Strip(r)) == multiset(Strip(q)) + multiset{x.(heapIndex := 0)}
    ensures multiset(PointsOf(r)) == multiset(PointsOf(q)) + multiset{x.point}
    ensures Indexed(q) ==> Indexed(r)
    ensures IsHeap(q) ==> IsHeap(r)
  {
    var p := Push(q, x);
    assert Strip(p) == Strip(q) + [x.(heapIndex := 0)];
    assert PointsOf(p) == PointsOf(q) + [x.point];
    PushPop(q, x);
    PushRestores(q, x);
    SiftUp(p, |q|)
  }

  /** `heap.Pop`: move the root to the end, sift the new root down over the
      shortened range, then remove the end. The returned node is the old root. */
  function HeapPop(q: Queue): (r: (Queue, Node))
    requires |q| > 0
    ensures |r.0| == |q| - 1
    ensures r.1 == q[0].(heapIndex := -1)
    ensures multiset(Strip(r.0)) + multiset{q[0].(heapIndex := 0)} == multiset(Strip(q))
    ensures multiset(PointsOf(r.0)) + multiset{q[0].point} == multiset(PointsOf(q))
    ensures Indexed(q) ==> Indexed(r.0)
    ensures IsHeap(q) ==> IsHeap(r.0)
  {
    var q2 := SiftDown(Swap(q, 0, |q| - 1), 0, |q| - 1).0;
    PopBags(q);
    PopRestores(q);
    var r := Pop(q2);
    assert r.0 == q2[..|q| - 1];
    r
  }

  /** After the swap and the sift, the old root sits at the end and the rest
      holds the other nodes. */
  lemma PopBags(q: Queue)
    requires |q| > 0
    ensures var n := |q| - 1;
            var q2 := SiftDown(Swap(q, 0, n), 0, n).0;
            q2[n] == q[0].(heapIndex := n) &&
            multiset(Strip(q2[..n])) + multiset{q[0].(heapIndex := 0)} == multiset(Strip(q)) &&
            multiset(PointsOf(q2[..n])) + multiset{q[0].point} == multiset(PointsOf(q)) &&
            (Indexed(q) ==> Indexed(q2[..n]))
  {
    var n := |q| - 1;
    var q1 := Swap(q, 0, n);
    SwapKeeps(q, 0, n);
    var q2 := SiftDown(q1, 0, n).0;
    assert q2[n] == q[0].(heapIndex := n);
    assert Strip(q2) == Strip(q2[..n]) + [q[0].(heapIndex := 0)];
    assert PointsOf(q2) == PointsOf(q2[..n]) + [q[0].point];
  }

  /** `heap.Fix`: re-establish the order after the node at i changed; sift it
      down, and if it did not move, sift it up. */
  function HeapFix(q: Queue, i: nat): (r: Queue)
    requires i < |q|
    ensures |r| == |q| && Perm(r, q)
    ensures Indexed(q) ==> Indexed(r)
  {
    var (d, pos) := SiftDown(q, i, |q|);
    if pos > i then d else SiftUp(d, i)
  }

  /** `heap.Init`: sift down every position that has a child, last first. */
  function HeapInit(q: Queue): (r: Queue)
    ensures |r| == |q| && Perm(r, q)
    ensures Indexed(q) ==> Indexed(r)
    ensures IsHeap(r)
  {
    InitEmptyTail(q);
    InitRestores(q, |q| / 2);
    InitFrom(q, |q| / 2)
  }

  function InitFrom(q: Queue, i: nat): (r: Queue)
    requires i <= |q|
    ensures |r| == |q| && Perm(r, q)
    ensures Indexed(q) ==> Indexed(r)
    decreases i
  {
    if i == 0 then q else InitFrom(SiftDown(q, i - 1, |q|).0, i - 1)
  }

  // ---------------------------------------------------------------------------
  // Why the sifts restore the heap
  // ---------------------------------------------------------------------------

  /** The heap while a node at j is on its way up: every other link holds,
      and j's children do not sort before j's parent. */
  predicate UpInv(q: Queue, j: nat) {
    j < |q| &&
    (forall k :: 0 < k < |q| && k != j ==> !Less(q[k], q[Parent(k)])) &&
    (j > 0 ==> forall k :: 0 < k < |q| && Parent(k) == j ==> !Less(q[k], q[Parent(j)]))
  }

  lemma {:induction false} SiftUpRestores(q: Queue, j: nat)
    requires UpInv(q, j)
    ensures IsHeap(SiftUp(q, j))
    decreases j
  {
    if j > 0 {
      var i := Parent(j);
      if Less(q[j], q[i]) {
        var s := Swap(q, i, j);
        forall k | 0 < k < |s| && k != i
          ensures !Less(s[k], s[Parent(k)])
        {
          if k == j {
          } else if Parent(k) == j {
            assert !Less(q[k], q[i]);
          } else if Parent(k) == i {
            assert !Less(q[k], q[i]);
          }
        }
        if i > 0 {
          forall k | 0 < k < |s| && Parent(k) == i
            ensures !Less(s[k], s[Parent(i)])
          {
            assert !Less(q[i], q[Parent(i)]);
            if k != j {
              assert !Less(q[k], q[i]);
            }
          }
        }
        SiftUpRestores(s, i);
      }
    }
  }

  /** The heap while a node at i (at or below lo) is on its way down inside the
      first n positions: every link from a parent at lo or later holds except
      those out of i, and i's children do not sort before i's parent. */
  predicate DownInv(q: Queue, lo: nat, i: nat, n: nat) {
    i < |q| && n <= |q| && lo <= i && (lo < i ==> lo <= Parent(i)) &&
    (forall k :: 0 < k < n && lo <= Parent(k) && Parent(k) != i ==> !Less(q[k], q[Parent(k)])) &&
    (lo < i ==> forall k :: 0 < k < n && Parent(k) == i ==> !Less(q[k], q[Parent(i)]))
  }

  lemma {:induction false} SiftDownRestores(q: Queue, lo: nat, i: nat, n: nat)
    requires DownInv(q, lo, i, n)
    ensures HeapFrom(SiftDown(q, i, n).0, lo, n)
    decreases n - i
  {
    var j1 := 2 * i + 1;
    if j1 < n {
      var j := if j1 + 1 < n && Less(q[j1 + 1], q[j1]) then j1 + 1 else j1;
      if Less(q[j], q[i]) {
        assert Parent(j) == i;
        forall k | 0 < k < n && Parent(k) == i
          ensures !Less(q[k], q[j])
        {
          LessOrder(q[k], q[j], q[k]);
        }
        DownStep(q, lo, i, n, j);
        SiftDownRestores(Swap(q, i, j), lo, j, n);
      } else {
        forall k | 0 < k < n && lo <= Parent(k)
          ensures !Less(q[k], q[Parent(k)])
        {
          if Parent(k) == i && k != j {
            assert !Less(q[k], q[j]);
          }
        }
      }
    }
  }

  /** One swap of `down` moves the break in the heap order to the child. */
  lemma DownStep(q: Queue, lo: nat, i: nat, n: nat, j: nat)
    requires DownInv(q, lo, i, n) && 0 < j < n && Parent(j) == i
    requires forall k :: 0 < k < n && Parent(k) == i ==> !Less(q[k], q[j])
    requires Less(q[j], q[i])
    ensures DownInv(Swap(q, i, j), lo, j, n)
  {
    var s := Swap(q, i, j);
    assert Parent(j) == i;
    forall k | 0 < k < n && lo <= Parent(k) && Parent(k) != j
      ensures !Less(s[k], s[Parent(k)])
    {
      if k == j {
      } else if k == i {
        assert !Less(q[j], q[Parent(i)]);
      } else if Parent(k) == i {
        assert !Less(q[k], q[j]);
      }
    }
    forall k | 0 < k < n && Parent(k) == j
      ensures !Less(s[k], s[Parent(j)])
    {
      assert !Less(q[k], q[j]);
    }
  }

  lemma PushRestores(q: Queue, x: Node)
    ensures IsHeap(q) ==> IsHeap(SiftUp(Push(q, x), |q|))
  {
    if IsHeap(q) {
      SiftUpRestores(Push(q, x), |q|);
    }
  }

  lemma PopRestores(q: Queue)
    requires |q| > 0
    ensures IsHeap(q) ==> IsHeap(SiftDown(Swap(q, 0, |q| - 1), 0, |q| - 1).0[..|q| - 1])
  {
    if !IsHeap(q) {
      return;
    }
    var n := |q| - 1;
    var s := Swap(q, 0, n);
    forall k | 0 < k < n && Parent(k) != 0
      ensures !Less(s[k], s[Parent(k)])
    {
      assert s[k] == q[k].(heapIndex := k) || s[k] == q[k];
    }
    assert DownInv(s, 0, 0, n);
    SiftDownRestores(s, 0, 0, n);
    var d := SiftDown(s, 0, n).0;
    assert HeapFrom(d, 0, n);
    forall k | 0 < k < n
      ensures !Less(d[..n][k], d[..n][Parent(k)])
    {
      assert d[..n][k] == d[k];
    }
  }

  /** No node in the upper half of the positions has a child. */
  lemma InitEmptyTail(q: Queue)
    ensures HeapFrom(q, |q| / 2, |q|)
  {
  }

  lemma {:induction false} InitRestores(q: Queue, i: nat)
    requires i <= |q| && HeapFrom(q, i, |q|)
    ensures IsHeap(InitFrom(q, i))
    decreases i
  {
    if i > 0 {
      assert DownInv(q, i - 1, i - 1, |q|);
      SiftDownRestores(q, i - 1, i - 1, |q|);
      InitRestores(SiftDown(q, i - 1, |q|).0, i - 1);
    }
  }

  /** A heap's root sorts no later than any node in it. */
  lemma {:induction false} RootIsMin(q: Queue, k: nat)
    requires IsHeap(q) && k < |q|
    ensures !Less(q[k], q[0])
    decreases k
  {
    if k > 0 {
      RootIsMin(q, Parent(k));
      LessOrder(q[k], q[Parent(k)], q[0]);
    }
  }

  /** Fix restores the heap after any one node is replaced: a node that sorts
      later sinks, a node that sorts earlier rises. */
  lemma FixRestores(h: Queue, i: nat, x: Node)
    requires IsHeap(h) && i < |h|
    ensures IsHeap(HeapFix(h[i := x], i))
  {
    if !Less(x, h[i]) {
      FixSinks(h, i, x);
    } else {
      FixRises(h, i, x);
    }
  }

  /** A node that sorts no earlier than before sinks into place. */
  lemma FixSinks(h: Queue, i: nat, x: Node)
    requires IsHeap(h) && i < |h| && !Less(x, h[i])
    ensures IsHeap(HeapFix(h[i := x], i))
  {
    var q := h[i := x];
    SinkStart(h, i, x);
    SiftDownRestores(q, 0, i, |q|);
    HeapStaysPut(SiftDown(q, i, |q|).0, i);
  }

  /** Replacing a heap node by one that sorts no earlier breaks the order
      only below it. */
  lemma SinkStart(h: Queue, i: nat, x: Node)
    requires IsHeap(h) && i < |h| && !Less(x, h[i])
    ensures DownInv(h[i := x], 0, i, |h|)
  {
    var q := h[i := x];
    forall k | 0 < k < |q| && Parent(k) != i
      ensures !Less(q[k], q[Parent(k)])
    {
      if k == i {
        LessOrder(x, h[i], h[Parent(i)]);
      }
    }
    if 0 < i {
      forall k | 0 < k < |q| && Parent(k) == i
        ensures !Less(q[k], q[Parent(i)])
      {
        LessOrder(h[k], h[i], h[Parent(i)]);
      }
    }
  }

  /** A node that sorts earlier than before cannot sink, and rises into place. */
  lemma FixRises(h: Queue, i: nat, x: Node)
    requires IsHeap(h) && i < |h| && Less(x, h[i])
    ensures IsHeap(HeapFix(h[i := x], i))
  {
    var q := h[i := x];
    forall k | 0 < k < |q| && Parent(k) == i
      ensures !Less(q[k], q[i])
    {
      LessOrder(h[k], h[i], x);
    }
    assert SiftDown(q, i, |q|) == (q, i);
    if 0 < i {
      forall k | 0 < k < |q| && Parent(k) == i
        ensures !Less(q[k], q[Parent(i)])
      {
        LessOrder(h[k], h[i], h[Parent(i)]);
      }
    }
    assert UpInv(q, i);
    SiftUpRestores(q, i);
  }

  /** Sifting up inside a heap changes nothing. */
  lemma HeapStaysPut(q: Queue, j: nat)
    requires IsHeap(q) && j < |q|
    ensures SiftUp(q, j) == q
  {
  }

  // ---------------------------------------------------------------------------
  // What the queue promises its user
  // ---------------------------------------------------------------------------

  /** `heap.Pop` hands out a node that sorts no later than any node queued. */
  lemma PopIsMin(q: Queue)
    requires IsHeap(q) && |q| > 0
    ensures forall k :: 0 <= k < |q| ==> !Less(q[k], HeapPop(q).1)
  {
    forall k | 0 <= k < |q|
      ensures !Less(q[k], HeapPop(q).1)
    {
      RootIsMin(q, k);
    }
  }

  /** Pops drain a heap in non-decreasing (FCost, HCost) order, with every
      queued node handed out exactly once. */
  function Drain(q: Queue): (out: seq<Node>)
    requires IsHeap(q)
    ensures multiset(Strip(out)) == multiset(Strip(q))
    ensures forall a, b :: 0 <= a < b < |out| ==> !Less(out[b], out[a])
    decreases |q|
  {
    if |q| == 0 then []
    else
      var (rest, x) := HeapPop(q);
      var tail := Drain(rest);
      DrainHeadFirst(q, rest, tail);
      DrainStep(q, rest, x, tail);
      [x] + tail
  }

  lemma DrainStep(q: Queue, rest: Queue, x: Node, tail: seq<Node>)
    requires |q| > 0 && x == q[0].(heapIndex := -1)
    requires multiset(Strip(rest)) + multiset{q[0].(heapIndex := 0)} == multiset(Strip(q))
    requires multiset(Strip(tail)) == multiset(Strip(rest))
    requires forall b :: 0 <= b < |tail| ==> !Less(tail[b], x)
    requires forall a, b :: 0 <= a < b < |tail| ==> !Less(tail[b], tail[a])
    ensures multiset(Strip([x] + tail)) == multiset(Strip(q))
    ensures forall a, b :: 0 <= a < b < |[x] + tail| ==> !Less(([x] + tail)[b], ([x] + tail)[a])
  {
    var out := [x] + tail;
    assert Strip(out) == [q[0].(heapIndex := 0)] + Strip(tail);
    forall a, b | 0 <= a < b < |out|
      ensures !Less(out[b], out[a])
    {
      assert out[b] == tail[b - 1];
      if a > 0 {
        assert out[a] == tail[a - 1];
      }
    }
  }

  lemma DrainHeadFirst(q: Queue, rest: Queue, tail: seq<Node>)
    requires IsHeap(q) && |q| > 0 && rest == HeapPop(q).0
    requires multiset(Strip(tail)) == multiset(Strip(rest))
    ensures forall b :: 0 <= b < |tail| ==> !Less(tail[b], HeapPop(q).1)
  {
    PopIsMin(q);
    forall b | 0 <= b < |tail|
      ensures !Less(tail[b], HeapPop(q).1)
    {
      var t := Strip(tail)[b];
      assert t in multiset(Strip(rest));
      assert t in multiset(Strip(q));
      var k :| 0 <= k < |q| && Strip(q)[k] == t;
      assert !Less(q[k], HeapPop(q).1);
    }
  }

  /** Two successive pops come out in order. */
  lemma PopTwiceOrdered(q: Queue)
    requires IsHeap(q) && |q| >= 2
    ensures !Less(HeapPop(HeapPop(q).0).1, HeapPop(q).1)
  {
    var rest := HeapPop(q).0;
    DrainHeadFirst(q, rest, rest);
  }

  /** A fresh queue is empty, and Init leaves it so. */
  lemma EmptyQueue()
    ensures HeapInit([]) == []
  {
  }

  /** The ordering test: four nodes pushed, three popped. The two FCost-5
      nodes come out first, (4,4) before (2,2) on the HCost tie-break, then
      the FCost-10 node. */
  lemma OrderingExample()
    ensures var q := HeapPush(HeapPush(HeapPush(HeapPush(HeapInit([]),
              MakeNode(Point(1, 1), 10, 5)), MakeNode(Point(2, 2), 5, 2)),
              MakeNode(Point(3, 3), 15, 10)), MakeNode(Point(4, 4), 5, 1));
            var (q1, first) := HeapPop(q);
            var (q2, second) := HeapPop(q1);
            var (_, third) := HeapPop(q2);
            first.point == Point(4, 4) && first.fCost == 5 &&
            second.point == Point(2, 2) && second.fCost == 5 &&
            third.fCost == 10
  {
    OrderingPushes();
    OrderingPops();
  }

  lemma OrderingPushes()
    ensures HeapPush(HeapPush(HeapPush(HeapPush(HeapInit([]),
              MakeNode(Point(1, 1), 10, 5)), MakeNode(Point(2, 2), 5, 2)),
              MakeNode(Point(3, 3), 15, 10)), MakeNode(Point(4, 4), 5, 1))
            == [MakeNode(Point(4, 4), 5, 1), MakeNode(Point(2, 2), 5, 2).(heapIndex := 1),
                MakeNode(Point(3, 3), 15, 10).(heapIndex := 2), MakeNode(Point(1, 1), 10, 5).(heapIndex := 3)]
  {
    var a, b := MakeNode(Point(1, 1), 10, 5), MakeNode(Point(2, 2), 5, 2);
    var c, d := MakeNode(Point(3, 3), 15, 10), MakeNode(Point(4, 4), 5, 1);
    EmptyQueue();
    FirstPushes();
    FourthPush(a, b, c, d);
  }

  lemma FirstPushes()
    ensures var a, b := MakeNode(Point(1, 1), 10, 5), MakeNode(Point(2, 2), 5, 2);
            HeapPush(HeapPush([], a), b) == [b, a.(heapIndex := 1)]
    ensures var a, b, c := MakeNode(Point(1, 1), 10, 5), MakeNode(Point(2, 2), 5, 2), MakeNode(Point(3, 3), 15, 10);
            HeapPush([b, a.(heapIndex := 1)], c) == [b, a.(heapIndex := 1), c.(heapIndex := 2)]
  {
    PushOnto(MakeNode(Point(1, 1), 10, 5), MakeNode(Point(2, 2), 5, 2));
    ThirdPush(MakeNode(Point(1, 1), 10, 5), MakeNode(Point(2, 2), 5, 2), MakeNode(Point(3, 3), 15, 10));
  }

  lemma PushOnto(a: Node, b: Node)
    requires a.heapIndex == 0 && b.heapIndex == 0 && Less(b, a)
    ensures HeapPush(HeapPush([], a), b) == [b, a.(heapIndex := 1)]
  {
    assert HeapPush([], a) == [a];
    var p := Push([a], b);
    assert p == [a, b.(heapIndex := 1)];
    assert Swap(p, 0, 1) == [b, a.(heapIndex := 1)];
    assert SiftUp(p, 1) == SiftUp(Swap(p, 0, 1), 0);
  }

  lemma ThirdPush(a: Node, b: Node, c: Node)
    requires a.heapIndex == 0 && b.heapIndex == 0 && c.heapIndex == 0 && !Less(c, b)
    ensures HeapPush([b, a.(heapIndex := 1)], c) == [b, a.(heapIndex := 1), c.(heapIndex := 2)]
  {
  }

  lemma FourthPush(a: Node, b: Node, c: Node, d: Node)
    requires a.heapIndex == 0 && b.heapIndex == 0 && c.heapIndex == 0
    requires Less(d, a) && Less(d, b) && Less(b, a) && !Less(c, b)
    ensures HeapPush([b, a.(heapIndex := 1), c.(heapIndex := 2)], d)
      == [d.(heapIndex := 0), b.(heapIndex := 1), c.(heapIndex := 2), a.(heapIndex := 3)]
  {
    var p := Push([b, a.(heapIndex := 1), c.(heapIndex := 2)], d);
    var s1 := Swap(p, 1, 3);
    assert s1 == [b, d.(heapIndex := 1), c.(heapIndex := 2), a.(heapIndex := 3)];
    assert SiftUp(p, 3) == SiftUp(s1, 1);
    assert Swap(s1, 0, 1) == [d.(heapIndex := 0), b.(heapIndex := 1), c.(heapIndex := 2), a.(heapIndex := 3)];
    assert SiftUp(s1, 1) == SiftUp(Swap(s1, 0, 1), 0);
  }

  lemma OrderingPops()
    ensures var q := [MakeNode(Point(4, 4), 5, 1), MakeNode(Point(2, 2), 5, 2).(heapIndex := 1),
                MakeNode(Point(3, 3), 15, 10).(heapIndex := 2), MakeNode(Point(1, 1), 10, 5).(heapIndex := 3)];
            var (q1, first) := HeapPop(q);
            var (q2, second) := HeapPop(q1);
            var (_, third) := HeapPop(q2);
            first.point == Point(4, 4) && first.fCost == 5 &&
            second.point == Point(2, 2) && second.fCost == 5 &&
            third.fCost == 10
  {
    var a, b := MakeNode(Point(1, 1), 10, 5), MakeNode(Point(2, 2), 5, 2);
    var c, d := MakeNode(Point(3, 3), 15, 10), MakeNode(Point(4, 4), 5, 1);
    FirstPop(a, b, c, d);
    SecondPop(a, b, c);
    ThirdPop(a, c);
  }

  lemma FirstPop(a: Node, b: Node, c: Node, d: Node)
    requires a.heapIndex == 0 && b.heapIndex == 0 && c.heapIndex == 0 && d.heapIndex == 0
    requires Less(b, a) && !Less(c, b)
    ensures HeapPop([d, b.(heapIndex := 1), c.(heapIndex := 2), a.(heapIndex := 3)])
      == ([b, a.(heapIndex := 1), c.(heapIndex := 2)], d.(heapIndex := -1))
  {
    var q := [d, b.(heapIndex := 1), c.(heapIndex := 2), a.(heapIndex := 3)];
    var q1 := Swap(q, 0, 3);
    assert q1 == [a, b.(heapIndex := 1), c.(heapIndex := 2), d.(heapIndex := 3)];
    assert Swap(q1, 0, 1) == [b, a.(heapIndex := 1), c.(heapIndex := 2), d.(heapIndex := 3)];
    assert SiftDown(q1, 0, 3) == SiftDown(Swap(q1, 0, 1), 1, 3);
    assert SiftDown(Swap(q1, 0, 1), 1, 3).0 == Swap(q1, 0, 1);
    assert HeapPop(q) == Pop(Swap(q1, 0, 1));
    assert Swap(q1, 0, 1)[..3] == [b, a.(heapIndex := 1), c.(heapIndex := 2)];
  }

  lemma SecondPop(a: Node, b: Node, c: Node)
    requires a.heapIndex == 0 && b.heapIndex == 0 && c.heapIndex == 0
    requires Less(a, c)
    ensures HeapPop([b, a.(heapIndex := 1), c.(heapIndex := 2)]) == ([a, c.(heapIndex := 1)], b.(heapIndex := -1))
  {
    var q := [b, a.(heapIndex := 1), c.(heapIndex := 2)];
    var q1 := Swap(q, 0, 2);
    assert q1 == [c, a.(heapIndex := 1), b.(heapIndex := 2)];
    assert Swap(q1, 0, 1) == [a, c.(heapIndex := 1), b.(heapIndex := 2)];
    assert SiftDown(q1, 0, 2) == SiftDown(Swap(q1, 0, 1), 1, 2);
    assert SiftDown(Swap(q1, 0, 1), 1, 2).0 == Swap(q1, 0, 1);
    assert HeapPop(q) == Pop(Swap(q1, 0, 1));
    assert Swap(q1, 0, 1)[..2] == [a, c.(heapIndex := 1)];
  }

  lemma ThirdPop(a: Node, c: Node)
    requires a.heapIndex == 0 && c.heapIndex == 0
    ensures HeapPop([a, c.(heapIndex := 1)]).1 == a.(heapIndex := -1)
  {
  }

  /** The position-tracking test: after three pushes and after a pop, every
      node's HeapIndex equals its position. */
  lemma IndexExample()
    ensures var q := HeapPush(HeapPush(HeapPush(HeapInit([]),
              MakeNode(Point(0, 0), 100, 0)), MakeNode(Point(1, 1), 50, 0)),
              MakeNode(Point(2, 2), 25, 0));
            Indexed(q) && Indexed(HeapPop(q).0)
  {
  }
}
