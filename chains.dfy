/** Heap cells of a singly linked list, and the shape a chain of them has
    inside the container: the ghost spine `ns` lists the cells in order,
    and the predicates below tie that spine to the real `next` links. */
module Chains {
  import opened Seqs

  /** A list cell (DataNode): a stored value and the link to the following
      cell, or null at the end of the chain. */
  class Node<T> {
    var value: T
    var next: Node?<T>

    constructor (v: T)
      ensures value == v && next == null
    {
      value := v;
      next := null;
    }
  }

  /** Each cell of ns links to the cell after it. */
  ghost predicate Linked<T>(ns: seq<Node<T>>)
    reads ns
  {
    forall k {:trigger ns[k].next} :: 0 <= k < |ns| - 1 ==> ns[k].next == ns[k + 1]
  }

  /** A linked spine whose last cell ends the chain (or no spine at all). */
  ghost predicate NullEnded<T>(ns: seq<Node<T>>)
    reads ns
  {
    Linked(ns) && (ns != [] ==> ns[|ns| - 1].next == null)
  }

  /** A non-empty linked spine whose last cell is last, with a null link. */
  ghost predicate EndsAt<T>(ns: seq<Node<T>>, last: Node<T>)
    reads ns
  {
    ns != [] && Linked(ns) && last == ns[|ns| - 1] && last.next == null
  }

  /** ns is the whole chain starting at head: its cells are linked in
      order, the last one ends the chain, and length counts them. Such a
      chain never repeats a cell (ChainDistinct). */
  ghost predicate Chain<T>(head: Node?<T>, length: int, ns: seq<Node<T>>)
    reads ns
  {
    && NullEnded(ns)
    && length == |ns|
    && head == (if ns == [] then null else ns[0])
  }

  /** The container invariant: a chain, with tail its last cell. */
  ghost predicate ListShape<T>(head: Node?<T>, tail: Node?<T>, length: int, ns: seq<Node<T>>)
    reads ns
  {
    && Chain(head, length, ns)
    && tail == (if ns == [] then null else ns[|ns| - 1])
  }

  /** The cells of ns store the values vs, position by position. */
  ghost predicate Stores<T>(ns: seq<Node<T>>, vs: seq<T>)
    reads ns`value
  {
    |ns| == |vs| && forall i :: 0 <= i < |ns| ==> ns[i].value == vs[i]
  }

  /** Two positions holding the same cell are followed by the same cells:
      the links out of equal cells are equal. */
  lemma {:induction false} SameSuffix<T>(ns: seq<Node<T>>, i: int, j: int, t: nat)
    requires Linked(ns) && 0 <= i < j && j + t < |ns| && ns[i] == ns[j]
    ensures ns[i + t] == ns[j + t]
    decreases t
  {
    if t > 0 {
      SameSuffix(ns, i, j, t - 1);
      assert ns[i + t - 1].next == ns[i + t];
      assert ns[j + t - 1].next == ns[j + t];
    }
  }

  /** A linked spine whose last cell ends the chain holds no cell twice:
      a repeated cell would make a cell before the end equal the last
      one, whose link is null. */
  lemma ChainDistinct<T>(ns: seq<Node<T>>)
    requires NullEnded(ns)
    ensures Distinct(ns)
  {
    forall i, j | 0 <= i < j < |ns| ensures ns[i] != ns[j] {
      if ns[i] == ns[j] {
        var t := |ns| - 1 - j;
        SameSuffix(ns, i, j, t);
        assert false;
      }
    }
    DistinctPairs(ns);
  }

  /** The position of every cell of a null-terminated linked spine: a
      map from cell to index, which exists because no cell repeats. */
  lemma ChainPositions<T>(ns: seq<Node<T>>) returns (pos: map<Node<T>, int>)
    requires NullEnded(ns)
    ensures forall j :: 0 <= j < |ns| ==> ns[j] in pos && pos[ns[j]] == j
  {
    ChainDistinct(ns);
    DistinctPairs(ns);
    pos := map j | 0 <= j < |ns| :: ns[j] := j;
  }

  /** In a chain, the cell at position k sits at no other position. */
  lemma ChainUnique<T>(head: Node?<T>, length: int, ns: seq<Node<T>>, k: int)
    requires Chain(head, length, ns) && 0 <= k < |ns|
    ensures forall j :: 0 <= j < |ns| && j != k ==> ns[j] != ns[k]
  {
    ChainDistinct(ns);
    DistinctAt(ns, k);
  }

  /** In a chain, the link out of the cell at position k is the next cell,
      or null for the last one. */
  lemma ChainNext<T>(head: Node?<T>, length: int, ns: seq<Node<T>>, k: int)
    requires Chain(head, length, ns) && 0 <= k < |ns|
    ensures ns[k].next == if k + 1 < |ns| then ns[k + 1] else null
  {
  }

  /** Splicing cell x in at position i (strictly inside the chain) gives
      a valid container shape, provided every old link other than the one
      out of position i - 1 is intact and x sits between i - 1 and i. */
  lemma ShapeInsert<T>(ns: seq<Node<T>>, i: int, x: Node<T>)
    requires 0 < i < |ns|
    requires forall j {:trigger ns[j].next} :: 0 <= j < |ns| - 1 && j != i - 1 ==> ns[j].next == ns[j + 1]
    requires ns[i - 1].next == x && x.next == ns[i] && ns[|ns| - 1].next == null
    ensures ListShape(ns[0], ns[|ns| - 1], |ns| + 1, ns[..i] + [x] + ns[i..])
  {
    var t := ns[..i] + [x] + ns[i..];
    forall j {:trigger t[j].next} | 0 <= j < |t| - 1 ensures t[j].next == t[j + 1] {
      if j < i - 1 {
        assert t[j] == ns[j] && t[j + 1] == ns[j + 1];
      } else if j == i - 1 {
        assert t[j] == ns[j] && t[j + 1] == x;
      } else if j == i {
        assert t[j + 1] == ns[i];
      } else {
        assert t[j] == ns[j - 1] && t[j + 1] == ns[j];
      }
    }
    assert t[|t| - 1] == ns[|ns| - 1];
  }

  /** Cutting out the cell at position i (strictly inside the chain) gives
      a valid container shape, provided position i - 1 now links to
      position i + 1 and every other link out of a kept cell is intact. */
  lemma ShapeDrop<T>(ns: seq<Node<T>>, i: int)
    requires 0 < i < |ns| - 1
    requires forall j {:trigger ns[j].next} :: 0 <= j < |ns| - 1 && j != i - 1 && j != i ==> ns[j].next == ns[j + 1]
    requires ns[i - 1].next == ns[i + 1] && ns[|ns| - 1].next == null
    ensures ListShape(ns[0], ns[|ns| - 1], |ns| - 1, ns[..i] + ns[i + 1..])
  {
    var t := ns[..i] + ns[i + 1..];
    forall j {:trigger t[j].next} | 0 <= j < |t| - 1 ensures t[j].next == t[j + 1] {
      if j < i - 1 {
        assert t[j] == ns[j] && t[j + 1] == ns[j + 1];
      } else if j == i - 1 {
        assert t[j] == ns[j] && t[j + 1] == ns[i + 1];
      } else {
        assert t[j] == ns[j + 1] && t[j + 1] == ns[j + 2];
      }
    }
    assert t[|t| - 1] == ns[|ns| - 1];
  }

  /** Once every cell but the first links back to its predecessor and
      the first ends the chain, the reversed spine is a valid container
      shape running from the old last cell to the old first one. */
  lemma ShapeReverse<T>(ns: seq<Node<T>>)
    requires |ns| > 0
    requires forall j {:trigger ns[j].next} :: 0 < j < |ns| ==> ns[j].next == ns[j - 1]
    requires ns[0].next == null
    ensures ListShape(ns[|ns| - 1], ns[0], |ns|, Reverse(ns))
  {
    var r := Reverse(ns);
    forall j {:trigger r[j].next} | 0 <= j < |r| - 1 ensures r[j].next == r[j + 1] {
      assert r[j] == ns[|ns| - 1 - j] && r[j + 1] == ns[|ns| - 2 - j];
    }
  }

  /** Cutting out the cell at position i > 0, which may be the last one,
      gives a valid container shape once position i - 1 links to what
      followed position i; the last kept cell becomes the tail. */
  lemma ShapeCut<T>(ns: seq<Node<T>>, i: int)
    requires 0 < i < |ns|
    requires forall j {:trigger ns[j].next} :: 0 <= j < |ns| - 1 && j != i - 1 && j != i ==> ns[j].next == ns[j + 1]
    requires ns[i - 1].next == (if i + 1 < |ns| then ns[i + 1] else null)
    requires i + 1 < |ns| ==> ns[|ns| - 1].next == null
    ensures ListShape(ns[0], if i + 1 < |ns| then ns[|ns| - 1] else ns[i - 1], |ns| - 1, ns[..i] + ns[i + 1..])
  {
    var t := ns[..i] + ns[i + 1..];
    forall j {:trigger t[j].next} | 0 <= j < |t| - 1 ensures t[j].next == t[j + 1] {
      if j < i - 1 {
        assert t[j] == ns[j] && t[j + 1] == ns[j + 1];
      } else if j == i - 1 {
        assert t[j] == ns[j] && t[j + 1] == ns[i + 1];
      } else {
        assert t[j] == ns[j + 1] && t[j + 1] == ns[j + 2];
      }
    }
    assert t[|t| - 1] == if i + 1 < |ns| then ns[|ns| - 1] else ns[i - 1];
  }

  /** Moving cell x from behind the linked block blk to its front, right
      after the linked part a, gives a linked, null-terminated spine once
      a's last cell links to x, x to the block and the block's last cell
      to the linked, null-terminated rest b. */
  lemma ShapeMove<T>(a: seq<Node<T>>, x: Node<T>, blk: seq<Node<T>>, b: seq<Node<T>>)
    requires a != [] && blk != [] && Linked(a) && Linked(blk) && Linked(b)
    requires b != [] ==> b[|b| - 1].next == null
    requires a[|a| - 1].next == x && x.next == blk[0]
    requires blk[|blk| - 1].next == if b == [] then null else b[0]
    ensures Linked(a + [x] + blk + b)
    ensures (a + [x] + blk + b)[|a| + |blk| + |b|].next == null
  {
    var t := a + [x] + blk + b;
    forall k {:trigger t[k].next} | 0 <= k < |t| - 1 ensures t[k].next == t[k + 1] {
      if k < |a| - 1 {
        assert t[k] == a[k] && t[k + 1] == a[k + 1];
      } else if |a| < k < |a| + |blk| {
        assert t[k] == blk[k - |a| - 1] && t[k + 1] == blk[k - |a|];
      } else if k >= |a| + |blk| + 1 {
        assert t[k] == b[k - |a| - |blk| - 1] && t[k + 1] == b[k - |a| - |blk|];
      }
    }
  }

  /** Exchanging the two cells x, y that follow the linked part a, in
      front of the linked, null-terminated rest b, gives a linked,
      null-terminated spine once a's last cell links to y, y to x and x to
      the start of b. */
  lemma ShapeSwap<T>(a: seq<Node<T>>, x: Node<T>, y: Node<T>, b: seq<Node<T>>)
    requires a != [] && Linked(a) && Linked(b) && (b != [] ==> b[|b| - 1].next == null)
    requires a[|a| - 1].next == y && y.next == x && x.next == (if b == [] then null else b[0])
    ensures Linked(a + [y, x] + b)
    ensures (a + [y, x] + b)[|a| + 1 + |b|].next == null
  {
    var t := a + [y, x] + b;
    forall k {:trigger t[k].next} | 0 <= k < |t| - 1 ensures t[k].next == t[k + 1] {
      if k < |a| - 1 {
        assert t[k] == a[k] && t[k + 1] == a[k + 1];
      } else if k >= |a| + 2 {
        assert t[k] == b[k - |a| - 2] && t[k + 1] == b[k - |a| - 1];
      }
    }
  }

  /** A cell that links to the first cell of a linked, null-terminated
      spine heads a longer one. */
  lemma LinkedCons<T>(d: Node<T>, ns: seq<Node<T>>)
    requires NullEnded(ns)
    requires d.next == if ns == [] then null else ns[0]
    ensures Linked([d] + ns) && ([d] + ns)[|ns|].next == null
  {
    var c := [d] + ns;
    forall k {:trigger c[k].next} | 0 <= k < |c| - 1 ensures c[k].next == c[k + 1] {
      assert c[k + 1] == ns[k];
      if k > 0 {
        assert c[k] == ns[k - 1];
      }
    }
  }

  /** Dropping the front cell of a linked, null-terminated spine leaves
      one, and the front cell links to the first of the rest. The converse
      of LinkedCons. */
  lemma LinkedFront<T>(d: Node<T>, ns: seq<Node<T>>)
    requires Linked([d] + ns) && ([d] + ns)[|ns|].next == null
    ensures NullEnded(ns)
    ensures d.next == if ns == [] then null else ns[0]
  {
    var c := [d] + ns;
    forall k {:trigger ns[k].next} | 0 <= k < |ns| - 1 ensures ns[k].next == ns[k + 1] {
      assert c[k + 1] == ns[k] && c[k + 2] == ns[k + 1];
    }
    if ns != [] {
      assert c[0] == d && c[1] == ns[0];
    }
  }

  lemma StoresReverse<T>(ns: seq<Node<T>>, vs: seq<T>)
    requires Stores(ns, vs)
    ensures Stores(Reverse(ns), Reverse(vs))
  {
    var r, w := Reverse(ns), Reverse(vs);
    forall j | 0 <= j < |r| ensures r[j].value == w[j] {
      assert r[j] == ns[|ns| - 1 - j] && w[j] == vs[|vs| - 1 - j];
    }
  }

  /** Reordering a spine by a range reversal reorders its values alike. */
  lemma StoresReverseRange<T>(ns: seq<Node<T>>, vs: seq<T>, m: int, n: int)
    requires Stores(ns, vs) && 0 <= m <= n < |ns|
    ensures Stores(ReverseRange(ns, m, n), ReverseRange(vs, m, n))
  {
    ReverseRangeAt(ns, m, n);
    ReverseRangeAt(vs, m, n);
    var r, w := ReverseRange(ns, m, n), ReverseRange(vs, m, n);
    forall j | 0 <= j < |r| ensures r[j].value == w[j] {
      if m <= j <= n {
        assert r[j] == ns[m + n - j] && w[j] == vs[m + n - j];
      } else {
        assert r[j] == ns[j] && w[j] == vs[j];
      }
    }
  }

  /** Reordering a spine by swapping pairs reorders its values alike. */
  lemma StoresSwapPairs<T>(ns: seq<Node<T>>, vs: seq<T>)
    requires Stores(ns, vs)
    ensures Stores(SwapPairs(ns), SwapPairs(vs))
  {
    var r, w := SwapPairs(ns), SwapPairs(vs);
    forall j | 0 <= j < |r| ensures r[j].value == w[j] {
      assert r[j] == ns[Mate(j, |ns|)] && w[j] == vs[Mate(j, |vs|)];
    }
  }

  /** Partitioning the cells by their values partitions the values alike. */
  lemma {:induction false} StoresPartTo(ns: seq<Node<int>>, vs: seq<int>, x: int, below: bool, i: int)
    requires Stores(ns, vs) && 0 <= i <= |ns|
    ensures Stores(PartTo(ns, vs, x, below, i), PartTo(vs, vs, x, below, i))
    decreases i
  {
    if i > 0 {
      StoresPartTo(ns, vs, x, below, i - 1);
    }
  }

  /** The partitioned spine stores the partitioned values. */
  lemma StoresPartition(ns: seq<Node<int>>, vs: seq<int>, x: int)
    requires Stores(ns, vs)
    ensures Stores(PartitionBy(ns, vs, x), Partition(vs, x))
  {
    StoresPartTo(ns, vs, x, true, |ns|);
    StoresPartTo(ns, vs, x, false, |ns|);
    PartitionByValues(vs, x);
  }

  /** Splicing a cell that stores v in at position i splices v into the
      stored values at the same position. */
  lemma StoresInsert<T>(ns: seq<Node<T>>, vs: seq<T>, i: int, x: Node<T>)
    requires Stores(ns, vs) && 0 <= i <= |ns|
    ensures Stores(ns[..i] + [x] + ns[i..], vs[..i] + [x.value] + vs[i..])
  {
    var t, u := ns[..i] + [x] + ns[i..], vs[..i] + [x.value] + vs[i..];
    forall j | 0 <= j < |t| ensures t[j].value == u[j] {
      if j < i {
        assert t[j] == ns[j] && u[j] == vs[j];
      } else if j > i {
        assert t[j] == ns[j - 1] && u[j] == vs[j - 1];
      }
    }
  }

  /** Cutting out the cell at position i cuts out the value there. */
  lemma StoresDrop<T>(ns: seq<Node<T>>, vs: seq<T>, i: int)
    requires Stores(ns, vs) && 0 <= i < |ns|
    ensures Stores(ns[..i] + ns[i + 1..], vs[..i] + vs[i + 1..])
  {
    var t, u := ns[..i] + ns[i + 1..], vs[..i] + vs[i + 1..];
    forall j | 0 <= j < |t| ensures t[j].value == u[j] {
      if j < i {
        assert t[j] == ns[j] && u[j] == vs[j];
      } else {
        assert t[j] == ns[j + 1] && u[j] == vs[j + 1];
      }
    }
  }

  /** In a valid container, an empty head, an empty tail and a zero length
      go together. */
  lemma ListShapeEmpty<T>(head: Node?<T>, tail: Node?<T>, length: int, ns: seq<Node<T>>)
    requires ListShape(head, tail, length, ns)
    ensures (head == null) == (length == 0) && (tail == null) == (length == 0)
    ensures length > 0 ==> tail.next == null
  {
  }

  // ---------------------------------------------------------------------
  // Reachability
  // ---------------------------------------------------------------------

  /** Every link out of a cell of ns stays inside ns. */
  ghost predicate Closed<T>(ns: seq<Node<T>>)
    reads ns
  {
    forall k :: 0 <= k < |ns| ==> ns[k].next == null || ns[k].next in ns
  }

  /** The cell reached from n by following k links (null once the chain
      has ended). */
  ghost function Follow<T>(n: Node?<T>, k: nat, ns: seq<Node<T>>): (r: Node?<T>)
    reads ns
    requires Closed(ns) && (n == null || n in ns)
    ensures r == null || r in ns
    decreases k
  {
    if k == 0 || n == null then n else Follow(n.next, k - 1, ns)
  }

  lemma {:induction false} FollowAlong<T>(ns: seq<Node<T>>, i: int, k: nat)
    requires NullEnded(ns) && Closed(ns)
    requires 0 <= i < |ns| && i + k <= |ns|
    ensures Follow(ns[i], k, ns) == if i + k < |ns| then ns[i + k] else null
    decreases k
  {
    if k > 0 {
      if i + 1 < |ns| {
        FollowAlong(ns, i + 1, k - 1);
      }
    }
  }

  /** The length of a chain is the number of cells reachable from its
      head: following k < length links from head gives a cell, following
      length links reaches the end. */
  lemma ChainReach<T>(head: Node?<T>, length: int, ns: seq<Node<T>>)
    requires Chain(head, length, ns)
    ensures Closed(ns)
    ensures forall k :: 0 <= k < length ==> Follow(head, k, ns) == ns[k]
    ensures Follow(head, length, ns) == null
  {
    forall k | 0 <= k < |ns| ensures ns[k].next == null || ns[k].next in ns {
      if k < |ns| - 1 {
        assert ns[k].next == ns[k + 1];
      }
    }
    if ns != [] {
      forall k | 0 <= k <= length ensures Follow(head, k, ns) == if k < length then ns[k] else null {
        FollowAlong(ns, 0, k);
      }
    }
  }
}
