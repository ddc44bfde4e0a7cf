/** Cycle detection over raw-pointer test nodes. Unlike the container's
    cells, these can be linked into a cycle. The ghost sequence `ns` lists
    every node the walk can reach; it stands for the finite heap. */
module CycleDetection {
  import opened Seqs

  /** TestNode: an int value and a raw link, null when nothing follows. */
  class TestNode {
    var value: int
    var next: TestNode?

    constructor (v: int)
      ensures value == v && next == null
    {
      value := v;
      next := null;
    }
  }

  /** Every link out of a node of ns stays inside ns. */
  ghost predicate Closed(ns: seq<TestNode>)
    reads ns
  {
    forall k :: 0 <= k < |ns| ==> ns[k].next == null || ns[k].next in ns
  }

  /** The node reached from n by following k links, null once a link was
      null. Closed and Step repeat Chains.Closed and Chains.Follow over
      TestNode, just as the source keeps a separate node type for these
      tests beside the container's DataNode. */
  ghost function Step(n: TestNode?, k: nat, ns: seq<TestNode>): (r: TestNode?)
    reads ns
    requires Closed(ns) && (n == null || n in ns)
    ensures r == null || r in ns
    decreases k
  {
    if k == 0 || n == null then n else Step(n.next, k - 1, ns)
  }

  /** The walk from head ends: some number of links leads to null. The
      chain from head has a cycle exactly when this is false. */
  ghost predicate ReachesNull(head: TestNode?, ns: seq<TestNode>)
    reads ns
    requires Closed(ns) && (head == null || head in ns)
  {
    exists k: nat :: Step(head, k, ns) == null
  }

  /** The first n nodes of the walk from h. */
  ghost function Walk(h: TestNode?, n: nat, ns: seq<TestNode>): (w: seq<TestNode?>)
    reads ns
    requires Closed(ns) && (h == null || h in ns)
    ensures |w| == n && forall k :: 0 <= k < n ==> w[k] == Step(h, k, ns)
    decreases n
  {
    if n == 0 then [] else Walk(h, n - 1, ns) + [Step(h, n - 1, ns)]
  }

  /** One more link: the k+1-th node is the successor of the k-th. */
  lemma {:induction false} StepNext(h: TestNode?, k: nat, ns: seq<TestNode>)
    requires Closed(ns) && (h == null || h in ns)
    ensures Step(h, k + 1, ns) == if Step(h, k, ns) == null then null else Step(h, k, ns).next
    decreases k
  {
    if k > 0 && h != null {
      StepNext(h.next, k - 1, ns);
    }
  }

  /** Following a + b links is following a links, then b more. */
  lemma {:induction false} StepAdd(h: TestNode?, a: nat, b: nat, ns: seq<TestNode>)
    requires Closed(ns) && (h == null || h in ns)
    ensures Step(h, a + b, ns) == Step(Step(h, a, ns), b, ns)
    decreases a
  {
    if a > 0 && h != null {
      StepAdd(h.next, a - 1, b, ns);
    }
  }

  /** Once the walk has reached null it stays there. */
  lemma NullSticks(h: TestNode?, k: nat, m: nat, ns: seq<TestNode>)
    requires Closed(ns) && (h == null || h in ns) && k <= m
    ensures Step(h, k, ns) == null ==> Step(h, m, ns) == null
  {
    StepAdd(h, k, m - k, ns);
    assert Step(null, m - k, ns) == null;
  }

  /** If the walk returns after d links to the node it was at after a
      links, then from a on it repeats with period d. */
  lemma {:induction false} Periodic(h: TestNode?, a: nat, d: nat, t: nat, m: nat, ns: seq<TestNode>)
    requires Closed(ns) && (h == null || h in ns)
    requires Step(h, a, ns) == Step(h, a + d, ns) && a <= m
    ensures Step(h, m + t * d, ns) == Step(h, m, ns)
    decreases t
  {
    if t > 0 {
      Periodic(h, a, d, t - 1, m, ns);
      var m' := m + (t - 1) * d;
      assert m + t * d == (a + d) + (m' - a);
      StepAdd(h, a + d, m' - a, ns);
      StepAdd(h, a, m' - a, ns);
    }
  }

  /** Where the slow cursor (i links) and the fast one (2 i links) meet on
      a node, the walk never ends. */
  lemma CycleNoNull(h: TestNode?, i: nat, ns: seq<TestNode>)
    requires Closed(ns) && (h == null || h in ns)
    requires i > 0 && Step(h, i, ns) == Step(h, 2 * i, ns) != null
    ensures !ReachesNull(h, ns)
  {
    forall k: nat ensures Step(h, k, ns) != null {
      if k <= 2 * i {
        NullSticks(h, k, 2 * i, ns);
      } else {
        var t := (k - i) / i;
        var m := k - t * i;
        assert i <= m < 2 * i;
        Periodic(h, i, i, t, m, ns);
        NullSticks(h, m, 2 * i, ns);
      }
    }
  }

  /** After B rounds Floyd's loop is certain to stop: either the fast
      cursor has run off the end or the two cursors have met. */
  ghost predicate FloydStops(h: TestNode?, B: nat, ns: seq<TestNode>)
    reads ns
    requires Closed(ns) && (h == null || h in ns)
  {
    || Step(h, 2 * B, ns) == null
    || Step(h, 2 * B + 1, ns) == null
    || (B > 0 && Step(h, B, ns) == Step(h, 2 * B, ns))
  }

  /** The first multiple of d past a lies within d of a. */
  lemma MultipleAbove(a: nat, d: nat)
    requires d > 0
    ensures a < d * (a / d + 1) <= a + d
  {
    assert a == d * (a / d) + a % d;
    assert d * (a / d + 1) == d * (a / d) + d;
  }

  /** Pigeonhole on the walk: when none of its first |ns| + 1 nodes is
      null, two of them coincide. */
  lemma WalkRepeats(h: TestNode?, ns: seq<TestNode>) returns (a: nat, b: nat)
    requires Closed(ns) && (h == null || h in ns)
    requires forall k: nat :: k <= |ns| ==> Step(h, k, ns) != null
    ensures a < b <= |ns| && Step(h, a, ns) == Step(h, b, ns)
  {
    var w := Walk(h, |ns| + 1, ns);
    forall k | 0 <= k < |w| ensures w[k] in ns {
      assert w[k] == Step(h, k, ns);
    }
    if Distinct(w) {
      DistinctWithin(w, ns);
    }
    DistinctPairs(w);
    a, b :| 0 <= a < b < |w| && w[a] == w[b];
  }

  /** A walk that repeats the node of position a at position b has the
      cursors meet within b rounds. */
  lemma RepeatMeets(h: TestNode?, a: nat, b: nat, ns: seq<TestNode>) returns (B: nat)
    requires Closed(ns) && (h == null || h in ns)
    requires a < b && Step(h, a, ns) == Step(h, b, ns)
    ensures 0 < B <= b && Step(h, B, ns) == Step(h, 2 * B, ns)
  {
    var d: nat := b - a;
    var t: nat := a / d + 1;
    MultipleAbove(a, d);
    B := d * t;
    Periodic(h, a, d, t, B, ns);
  }

  /** Floyd's loop stops after at most |ns| rounds. An ending walk ends
      within |ns| links; otherwise its first |ns| + 1 nodes repeat one,
      at positions a < b, and the cursors meet after the first multiple
      of b - a past a. */
  lemma FloydBound(h: TestNode?, ns: seq<TestNode>) returns (B: nat)
    requires Closed(ns) && (h == null || h in ns)
    ensures B <= |ns| && FloydStops(h, B, ns)
  {
    if L: nat :| L <= |ns| && Step(h, L, ns) == null {
      B := L / 2;
    } else {
      var a, b := WalkRepeats(h, ns);
      B := RepeatMeets(h, a, b, ns);
    }
  }

  /** A walk that never ends is one that comes back to a node it has
      visited: the two readings of "the chain from head has a cycle"
      agree. */
  lemma CycleRevisits(h: TestNode?, ns: seq<TestNode>)
    requires Closed(ns) && (h == null || h in ns)
    ensures !ReachesNull(h, ns) <==>
      exists a: nat, b: nat :: a < b && Step(h, a, ns) == Step(h, b, ns) != null
  {
    if !ReachesNull(h, ns) {
      var a, b := WalkRepeats(h, ns);
      assert Step(h, a, ns) != null;
    }
    if a: nat, b: nat :| a < b && Step(h, a, ns) == Step(h, b, ns) != null {
      var B := RepeatMeets(h, a, b, ns);
      NullSticks(h, B, b, ns);
      CycleNoNull(h, B, ns);
    }
  }

  /** hasCycle: Floyd's algorithm. The slow cursor moves one link and the
      fast one two per round; they meet on a node exactly when the chain
      from head loops, and the fast one reaches null otherwise. Only the
      two cursors change; no node is written. */
  method HasCycle(head: TestNode?, ghost ns: seq<TestNode>) returns (r: bool)
    requires Closed(ns) && (head == null || head in ns)
    ensures r <==> !ReachesNull(head, ns)
  {
    if head == null || head.next == null {
      assert Step(head, 1, ns) == null;
      return false;
    }
    var slow := head;
    var fast := head;
    ghost var i: nat := 0;
    ghost var B := FloydBound(head, ns);
    while fast != null && fast.next != null
      invariant slow == Step(head, i, ns) && fast == Step(head, 2 * i, ns)
      invariant i <= B && (i == 0 || slow != fast)
      decreases B - i
    {
      StepNext(head, 2 * i, ns);
      StepNext(head, 2 * i + 1, ns);
      StepNext(head, i, ns);
      NullSticks(head, i, 2 * i, ns);
      NullSticks(head, i + 1, 2 * i + 1, ns);
      assert 2 * (i + 1) == 2 * i + 2;
      fast := fast.next.next;
      slow := slow.next;
      i := i + 1;
      if fast == slow {
        CycleNoNull(head, i, ns);
        return true;
      }
    }
    if fast != null {
      StepNext(head, 2 * i, ns);
    }
    return false;
  }

  /** The demonstration's first list, 1 -> 2 -> 3 -> 4, ends. */
  lemma LinearEnds(ns: seq<TestNode>)
    requires |ns| == 4
    requires ns[0].next == ns[1] && ns[1].next == ns[2] && ns[2].next == ns[3] && ns[3].next == null
    ensures Closed(ns) && ReachesNull(ns[0], ns)
  {
    assert Step(ns[3], 1, ns) == Step(null, 0, ns);
    assert Step(ns[2], 2, ns) == Step(ns[3], 1, ns);
    assert Step(ns[1], 3, ns) == Step(ns[2], 2, ns);
    assert Step(ns[0], 4, ns) == Step(ns[1], 3, ns);
  }

  /** With 4 pointing back at 2 the walk 1, 2, 3, 4, 2, 3, 4, ... never
      ends: after 3 and 6 links it is at 4 both times. */
  lemma LoopNeverEnds(ns: seq<TestNode>)
    requires |ns| == 4
    requires ns[0].next == ns[1] && ns[1].next == ns[2] && ns[2].next == ns[3] && ns[3].next == ns[1]
    ensures Closed(ns) && !ReachesNull(ns[0], ns)
  {
    assert Step(ns[1], 2, ns) == Step(ns[2], 1, ns) == Step(ns[3], 0, ns);
    assert Step(ns[0], 3, ns) == Step(ns[1], 2, ns);
    assert Step(ns[3], 3, ns) == Step(ns[1], 2, ns);
    assert Step(ns[2], 4, ns) == Step(ns[3], 3, ns);
    assert Step(ns[1], 5, ns) == Step(ns[2], 4, ns);
    assert Step(ns[0], 6, ns) == Step(ns[1], 5, ns);
    CycleNoNull(ns[0], 3, ns);
  }

  /** The demonstration's nodes 1, 2, 3, 4, linked in that order. */
  method LinearNodes() returns (ns: seq<TestNode>)
    ensures |ns| == 4 && fresh(ns[3])
    ensures ns[0].next == ns[1] && ns[1].next == ns[2] && ns[2].next == ns[3] && ns[3].next == null
    ensures forall k :: 0 <= k < 4 ==> ns[k].value == k + 1
  {
    var node1 := new TestNode(1);
    var node2 := new TestNode(2);
    var node3 := new TestNode(3);
    var node4 := new TestNode(4);
    node1.next := node2;
    node2.next := node3;
    node3.next := node4;
    ns := [node1, node2, node3, node4];
  }

  /** The demonstration: 1 -> 2 -> 3 -> 4 has no cycle; pointing 4 back
      at 2 makes one. */
  method CycleDemo() returns (noCycle: bool, withCycle: bool)
    ensures !noCycle && withCycle
  {
    var ns := LinearNodes();
    LinearEnds(ns);
    noCycle := HasCycle(ns[0], ns);
    ns[3].next := ns[1];
    LoopNeverEnds(ns);
    withCycle := HasCycle(ns[0], ns);
  }
}
