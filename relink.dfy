/** The pointer loops of the in-place relinking algorithms, run on a bare
    null-terminated chain whose cells the ghost spine `ns` lists. Each
    states the links it leaves in terms of positions in `ns`; the container
    methods turn those links into the reordered spine with the shape
    lemmas of Chains. */
module Relink {
  import opened Seqs
  import opened Chains

  // ---------------------------------------------------------------------
  // reverse
  // ---------------------------------------------------------------------

  /** The loop of the in-place reversal: walk the chain from its first
      cell, turning each link back to the previous cell, and return the
      old last cell, which now starts the reversed chain. */
  method ReverseLinks<T>(first: Node<T>, ghost ns: seq<Node<T>>) returns (last: Node<T>)
    requires ns != [] && first == ns[0]
    requires Linked(ns) && ns[|ns| - 1].next == null
    modifies ns`next
    ensures last == ns[|ns| - 1] && ns[0].next == null
    ensures forall j {:trigger ns[j].next} :: 0 < j < |ns| ==> ns[j].next == ns[j - 1]
  {
    ghost var pos := ChainPositions(ns);
    ghost var k := 0;
    var prev: Node?<T> := null;
    var current: Node?<T> := first;
    while current != null
      invariant 0 <= k <= |ns|
      invariant current == if k < |ns| then ns[k] else null
      invariant prev == if k == 0 then null else ns[k - 1]
      invariant forall j {:trigger ns[j].next} :: 0 < j < k ==> ns[j].next == ns[j - 1]
      invariant k > 0 ==> ns[0].next == null
      invariant forall j {:trigger ns[j].next} :: k <= j < |ns| - 1 ==> ns[j].next == ns[j + 1]
      invariant k < |ns| ==> ns[|ns| - 1].next == null
      decreases |ns| - k
    {
      var nextNode := current.next;
      current.next := prev;
      prev := current;
      current := nextNode;
      k := k + 1;
    }
    return prev;
  }

  // ---------------------------------------------------------------------
  // reverseSubset
  // ---------------------------------------------------------------------

  /** reverseSubset from the dummy cell that links to the chain ns, for
      0 <= m < n < |ns|: walk prev to the cell before position m, then
      relocate. Afterwards the links follow ReverseRange(ns, m, n) and the
      dummy links to its first cell. */
  method ReverseRangeLinks<T>(dummy: Node<T>, ghost ns: seq<Node<T>>, m: int, n: int)
    requires 0 <= m < n < |ns| && Linked(ns) && ns[|ns| - 1].next == null
    requires dummy.next == ns[0]
    modifies dummy`next, ns`next
    ensures Linked(ReverseRange(ns, m, n)) && ReverseRange(ns, m, n)[|ns| - 1].next == null
    ensures dummy.next == ReverseRange(ns, m, n)[0]
  {
    LinkedCons(dummy, ns);
    ghost var cur := [dummy] + ns;
    var prev := dummy;
    for i := 0 to m
      invariant prev == cur[i]
    {
      prev := prev.next;
    }
    var current := prev.next;
    assert cur[m + 1] == ns[m];
    RelocateLinks(prev, current, dummy, ns, m, n);
    ReverseSpineEnd(dummy, ns, m, n, n - m);
    ghost var r := ReverseRange(ns, m, n);
    assert |r| == |ns|;
    LinkedFront(dummy, r);
    assert r[|r| - 1].next == null;
  }

  /** The relocation loop of reverseSubset, on the spine [d] + ns: prev
      is the cell before position m (d when m is 0) and current the cell
      at m. n - m times, the cell after current is taken out and put
      right after prev. Afterwards the spine is ReverseSpine(d, ns, m, n - m),
      which is [d] + ReverseRange(ns, m, n) (ReverseSpineEnd). */
  method RelocateLinks<T>(prev: Node<T>, current: Node<T>, ghost d: Node<T>, ghost ns: seq<Node<T>>, m: int, n: int)
    requires 0 <= m < n < |ns|
    requires Linked([d] + ns) && ([d] + ns)[|ns|].next == null
    requires prev == ([d] + ns)[m] && current == ns[m]
    modifies prev`next, ns`next
    ensures Linked(ReverseSpine(d, ns, m, n - m)) && ReverseSpine(d, ns, m, n - m)[|ns|].next == null
  {
    ghost var cur := [d] + ns;
    ReverseSpineStart(d, ns, m);
    assert cur[m + 1] == current;
    // After i turns, the cells m .. m + i are reversed and current, the
    // old cell m, is the last of them.
    var i := 0;
    while i != n - m
      invariant 0 <= i <= n - m
      invariant cur == ReverseSpine(d, ns, m, i)
      invariant Linked(cur) && |cur| == |ns| + 1 && cur[|cur| - 1].next == null
      invariant prev == cur[m] && current == cur[m + i + 1]
    {
      ReverseSpineAt(d, ns, m, i);
      ReverseSpineStep(d, ns, m, i);
      cur := MoveNext(prev, current, cur, m, m + i + 1);
      i := i + 1;
    }
  }

  /** One turn of the relocation loop: in the linked, null-terminated
      spine cur, the cell after current (position e) is moved to right
      after prev (position j); the new spine is returned. */
  method MoveNext<T>(prev: Node<T>, current: Node<T>, ghost cur: seq<Node<T>>, ghost j: int, ghost e: int)
      returns (ghost cur': seq<Node<T>>)
    requires Linked(cur) && cur != [] && cur[|cur| - 1].next == null
    requires 0 <= j < e && e + 1 < |cur| && prev == cur[j] && current == cur[e]
    modifies prev`next, current`next, (cur[e + 1] as Node<T>)`next
    ensures cur' == MoveAfter(cur, j, e)
    ensures Linked(cur') && cur'[|cur'| - 1].next == null
  {
    var temp := current.next;
    ghost var a, blk, b := cur[..j + 1], cur[j + 1..e + 1], cur[e + 2..];
    ghost var cpos := ChainPositions(cur);
    label before:
    current.next := temp.next;
    temp.next := prev.next;
    prev.next := temp;
    forall k {:trigger a[k].next} | 0 <= k < |a| - 1 ensures a[k].next == a[k + 1] {
      assert cur[k] == a[k] && cur[k + 1] == a[k + 1];
      assert cpos[cur[k]] == k;
    }
    forall k {:trigger blk[k].next} | 0 <= k < |blk| - 1 ensures blk[k].next == blk[k + 1] {
      assert cur[k + j + 1] == blk[k] && cur[k + j + 2] == blk[k + 1];
      assert cpos[cur[k + j + 1]] == k + j + 1;
    }
    forall k {:trigger b[k].next} | 0 <= k < |b| ensures b[k].next == old@before(b[k].next) {
      assert cur[k + e + 2] == b[k];
      assert cpos[cur[k + e + 2]] == k + e + 2;
    }
    ShapeMove(a, temp, blk, b);
    cur' := a + [temp] + blk + b;
  }

  // ---------------------------------------------------------------------
  // swapPairs
  // ---------------------------------------------------------------------

  /** swapPairs from the dummy cell that links to the chain ns: afterwards
      the links follow SwapPairs(ns) and the dummy links to its first
      cell. */
  method SwapLinks<T>(dummy: Node<T>, ghost ns: seq<Node<T>>)
    requires Linked(ns) && (ns != [] ==> ns[|ns| - 1].next == null)
    requires dummy.next == if ns == [] then null else ns[0]
    modifies dummy`next, ns`next
    ensures Linked(SwapPairs(ns)) && (ns != [] ==> SwapPairs(ns)[|ns| - 1].next == null)
    ensures dummy.next == if ns == [] then null else SwapPairs(ns)[0]
  {
    LinkedCons(dummy, ns);
    SwapLoop(dummy, ns);
    LinkedFront(dummy, SwapPairs(ns));
  }

  /** The loop of swapPairs on the spine that starts at the dummy cell:
      while at least two cells remain after prev, the second of them is
      moved in front of the first. */
  method SwapLoop<T>(dummy: Node<T>, ghost ns: seq<Node<T>>)
    requires Linked([dummy] + ns) && ([dummy] + ns)[|ns|].next == null
    modifies dummy`next, ns`next
    ensures Linked([dummy] + SwapPairs(ns)) && ([dummy] + SwapPairs(ns))[|ns|].next == null
  {
    ghost var r := SwapPairs(ns);
    ghost var p, h := 0, 0;
    // The whole spine from the dummy: the first p cells already in their
    // new order r[..p], then the cells not yet handled.
    ghost var cur := [dummy] + ns;
    assert cur == SwapSpine(dummy, r, ns, 0);
    var prev := dummy;
    var first := prev.next;
    assert cur[0] == dummy && (ns != [] ==> cur[1] == ns[0]);
    while first != null && first.next != null
      invariant 0 <= p <= |ns| && p == 2 * h
      invariant cur == SwapSpine(dummy, r, ns, p)
      invariant Linked(cur) && |cur| == |ns| + 1 && cur[|cur| - 1].next == null
      invariant prev == if p == 0 then dummy else ns[p - 2]
      invariant first == if p < |ns| then ns[p] else null
      decreases |ns| - p
    {
      SwapSpineAt(dummy, r, ns, p, h);
      assert p + 1 < |ns|;
      SwapSpineStep(dummy, r, ns, p, h);
      cur := SwapNext(prev, first, cur, p);
      SwapSpineAt(dummy, r, ns, p + 2, h + 1);
      prev := first;
      first := first.next;
      p, h := p + 2, h + 1;
    }
    SwapSpineAt(dummy, r, ns, p, h);
    SwapSpineEnd(dummy, r, ns, p, h);
  }

  /** One turn of the swapPairs loop: in the linked, null-terminated spine
      cur, the cells first and second after prev (position i) change
      places; the new spine is returned. */
  method SwapNext<T>(prev: Node<T>, first: Node<T>, ghost cur: seq<Node<T>>, ghost i: int)
      returns (ghost cur': seq<Node<T>>)
    requires Linked(cur) && cur != [] && cur[|cur| - 1].next == null
    requires 0 <= i && i + 2 < |cur| && prev == cur[i] && first == cur[i + 1]
    modifies prev`next, first`next, (cur[i + 2] as Node<T>)`next
    ensures cur' == SwapAfter(cur, i)
    ensures Linked(cur') && cur'[|cur'| - 1].next == null
  {
    var second := first.next;
    ghost var a, b := cur[..i + 1], cur[i + 3..];
    ghost var cpos := ChainPositions(cur);
    label before:
    first.next := second.next;
    second.next := prev.next;
    prev.next := second;
    forall k {:trigger a[k].next} | 0 <= k < |a| - 1 ensures a[k].next == a[k + 1] {
      assert cur[k] == a[k] && cur[k + 1] == a[k + 1];
      assert cpos[cur[k]] == k;
    }
    forall k {:trigger b[k].next} | 0 <= k < |b| ensures b[k].next == old@before(b[k].next) {
      assert cur[k + i + 3] == b[k];
      assert cpos[cur[k + i + 3]] == k + i + 3;
    }
    ShapeSwap(a, first, second, b);
    cur' := a + [second, first] + b;
  }

  // ---------------------------------------------------------------------
  // partitionList
  // ---------------------------------------------------------------------

  /** partitionList on the chain ns, which stores vs: the cells whose
      value is below x are chained first, in their old order, then the
      others, in their old order; the first cell of the new chain is
      returned. The two dummy cells hold 0, the value-initialised int. */
  method PartitionChain(first: Node?<int>, ghost ns: seq<Node<int>>, ghost vs: seq<int>, x: int)
      returns (newFirst: Node?<int>)
    requires NullEnded(ns) && first == (if ns == [] then null else ns[0]) && Stores(ns, vs)
    modifies ns`next
    ensures NullEnded(PartitionBy(ns, vs, x))
    ensures newFirst == (if PartitionBy(ns, vs, x) == [] then null else PartitionBy(ns, vs, x)[0])
  {
    var beforeList := new Node(0);
    var afterList := new Node(0);
    ChainDistinct(ns);
    DistinctCons(beforeList, afterList, ns);
    var before, after, lo, hi := PartitionLinks(beforeList, afterList, first, ns, vs, x);
    newFirst := JoinParts(before, after, beforeList, afterList, ns, vs, x, lo, hi);
  }

  /** The loop of partitionList: each cell of ns in turn is detached from
      the rest and appended behind `before` or behind `after`, until every
      cell has been dealt out. */
  method PartitionLinks(bd: Node<int>, ad: Node<int>, first: Node?<int>, ghost ns: seq<Node<int>>, ghost vs: seq<int>, x: int)
      returns (before: Node<int>, after: Node<int>, ghost lo: seq<Node<int>>, ghost hi: seq<Node<int>>)
    requires NullEnded(ns) && first == (if ns == [] then null else ns[0]) && Stores(ns, vs)
    requires bd.next == null && ad.next == null && Distinct([bd] + [ad] + ns)
    modifies bd`next, ad`next, ns`next
    ensures Dealt(bd, ad, ns, vs, x, |ns|, lo, hi, before, after, null)
  {
    lo, hi := [bd], [ad];
    ghost var i := 0;
    before, after := bd, ad;
    var current := first;
    assert ns[0..] == ns;
    while current != null
      invariant Dealt(bd, ad, ns, vs, x, i, lo, hi, before, after, current)
      decreases |ns| - i
    {
      before, after, current, lo, hi := PartitionStep(before, after, current, x, bd, ad, ns, vs, i, lo, hi);
      i := i + 1;
    }
  }

  /** The progress of the partition loop after i cells: the cells before
      position i have been dealt out, in order, to the chain lo behind bd
      (values below x) and the chain hi behind ad (the others), which end
      at before and after; current is the cell at position i, and from
      there the old chain is intact. No cell occurs twice. */
  ghost predicate Dealt(bd: Node<int>, ad: Node<int>, ns: seq<Node<int>>, vs: seq<int>, x: int, i: int,
                        lo: seq<Node<int>>, hi: seq<Node<int>>, before: Node<int>, after: Node<int>, current: Node?<int>)
    reads lo, hi, ns
  {
    && 0 <= i <= |ns| && Stores(ns, vs)
    && current == (if i < |ns| then ns[i] else null)
    && lo == [bd] + PartTo(ns, vs, x, true, i) && hi == [ad] + PartTo(ns, vs, x, false, i)
    && EndsAt(lo, before) && (before == bd || before in ns)
    && EndsAt(hi, after) && (after == ad || after in ns)
    && NullEnded(ns[i..])
    && Distinct(lo + hi + ns[i..])
  }

  /** One turn of the partition loop, stated on the loop's progress. */
  method PartitionStep(before: Node<int>, after: Node<int>, current: Node<int>, x: int, ghost bd: Node<int>, ghost ad: Node<int>,
                       ghost ns: seq<Node<int>>, ghost vs: seq<int>, ghost i: int, ghost lo: seq<Node<int>>, ghost hi: seq<Node<int>>)
      returns (before': Node<int>, after': Node<int>, current': Node?<int>, ghost lo': seq<Node<int>>, ghost hi': seq<Node<int>>)
    requires Dealt(bd, ad, ns, vs, x, i, lo, hi, before, after, current)
    modifies before`next, after`next, current`next
    ensures Dealt(bd, ad, ns, vs, x, i + 1, lo', hi', before', after', current')
  {
    DealNext(bd, ad, ns, vs, x, i, lo, hi);
    ghost var rest := ns[i..];
    assert rest[1..] == ns[i + 1..];
    before', after', current', lo', hi' := PartitionTurn(before, after, current, x, lo, hi, rest);
  }

  /** Where a cell goes: onto the low chain when toLow, else onto the high one. */
  function DealLow<X>(lo: seq<X>, c: X, toLow: bool): seq<X>
  {
    if toLow then lo + [c] else lo
  }

  function DealHigh<X>(hi: seq<X>, c: X, toLow: bool): seq<X>
  {
    if toLow then hi else hi + [c]
  }

  /** Dealing out the cell at position i extends the sides as PartTo does. */
  lemma DealNext(bd: Node<int>, ad: Node<int>, ns: seq<Node<int>>, vs: seq<int>, x: int, i: int, lo: seq<Node<int>>, hi: seq<Node<int>>)
    requires |ns| == |vs| && 0 <= i < |ns|
    requires lo == [bd] + PartTo(ns, vs, x, true, i) && hi == [ad] + PartTo(ns, vs, x, false, i)
    ensures DealLow(lo, ns[i], vs[i] < x) == [bd] + PartTo(ns, vs, x, true, i + 1)
    ensures DealHigh(hi, ns[i], vs[i] < x) == [ad] + PartTo(ns, vs, x, false, i + 1)
  {
    AppendAssoc([bd], PartTo(ns, vs, x, true, i), [ns[i]]);
    AppendAssoc([ad], PartTo(ns, vs, x, false, i), [ns[i]]);
  }

  /** The body of the partition loop: the cell current, first of the
      null-terminated rest, is detached from it and appended behind
      `before` when its value is below x, behind `after` otherwise; the
      returned cells are the new ends and the next cell to visit. */
  method PartitionTurn(before: Node<int>, after: Node<int>, current: Node<int>, x: int,
                       ghost lo: seq<Node<int>>, ghost hi: seq<Node<int>>, ghost rest: seq<Node<int>>)
      returns (before': Node<int>, after': Node<int>, nextNode: Node?<int>, ghost lo': seq<Node<int>>, ghost hi': seq<Node<int>>)
    requires EndsAt(lo, before) && EndsAt(hi, after)
    requires rest != [] && current == rest[0] && NullEnded(rest) && Distinct(lo + hi + rest)
    modifies before`next, after`next, current`next
    ensures lo' == DealLow(lo, current, current.value < x) && hi' == DealHigh(hi, current, current.value < x)
    ensures EndsAt(lo', before') && EndsAt(hi', after')
    ensures nextNode == (if |rest| > 1 then rest[1] else null)
    ensures NullEnded(rest[1..]) && Distinct(lo' + hi' + rest[1..])
  {
    before', after' := before, after;
    if current.value < x {
      nextNode := Detach(before, current, lo, hi, rest);
      before' := current;
      lo', hi' := lo + [current], hi;
    } else {
      DistinctSwap(lo, hi, rest);
      nextNode := Detach(after, current, hi, lo, rest);
      DistinctSwap(hi + [current], lo, rest[1..]);
      after' := current;
      lo', hi' := lo, hi + [current];
    }
  }

  /** Detaching the cell c, first of the null-terminated rest r, from it
      (its link is moved out, which leaves null behind) and appending it
      behind last, the end of the chain a; the chain b is left as it is. */
  method Detach<T>(last: Node<T>, c: Node<T>, ghost a: seq<Node<T>>, ghost b: seq<Node<T>>, ghost r: seq<Node<T>>)
      returns (nextNode: Node?<T>)
    requires EndsAt(a, last) && b != [] && EndsAt(b, b[|b| - 1])
    requires r != [] && c == r[0] && NullEnded(r) && Distinct(a + b + r)
    modifies last`next, c`next
    ensures nextNode == if |r| > 1 then r[1] else null
    ensures EndsAt(a + [c], c) && EndsAt(b, b[|b| - 1])
    ensures NullEnded(r[1..]) && Distinct(a + [c] + b + r[1..])
  {
    nextNode := c.next;
    c.next := null;
    last.next := c;
    ghost var t := a + b + r;
    DistinctPairs(t);
    assert t[|a| - 1] == last && t[|a| + |b|] == c;
    forall k {:trigger a[k].next} | 0 <= k < |a| - 1 ensures a[k].next == a[k + 1] {
      assert t[k] == a[k] && t[|a| - 1] == last && t[|a| + |b|] == c;
    }
    forall k {:trigger b[k].next} | 0 <= k < |b| ensures b[k].next == old(b[k].next) {
      assert t[|a| + k] == b[k] && t[|a| - 1] == last && t[|a| + |b|] == c;
    }
    forall k {:trigger r[k].next} | 1 <= k < |r| ensures r[k].next == old(r[k].next) {
      assert t[|a| + |b| + k] == r[k] && t[|a| - 1] == last && t[|a| + |b|] == c;
    }
    ghost var a' := a + [c];
    forall k {:trigger a'[k].next} | 0 <= k < |a'| - 1 ensures a'[k].next == a'[k + 1] {
      if k < |a| - 1 {
        assert a'[k] == a[k] && a'[k + 1] == a[k + 1];
      }
    }
    ghost var r' := r[1..];
    forall k {:trigger r'[k].next} | 0 <= k < |r'| - 1 ensures r'[k].next == r'[k + 1] {
      assert r'[k] == r[k + 1] && r'[k + 1] == r[k + 2];
    }
    assert r == [c] + r';
    DistinctPermutation(t, a' + b + r');
  }

  /** The end of partitionList, once every cell has been dealt out: the
      high chain is ended with null, the low chain continues with the
      cells of the high one after its dummy, and the cell after the low
      dummy starts the partitioned chain. */
  method JoinParts(before: Node<int>, after: Node<int>, beforeList: Node<int>, afterList: Node<int>,
                   ghost ns: seq<Node<int>>, ghost vs: seq<int>, x: int, ghost lo: seq<Node<int>>, ghost hi: seq<Node<int>>)
      returns (newFirst: Node?<int>)
    requires Dealt(beforeList, afterList, ns, vs, x, |ns|, lo, hi, before, after, null)
    modifies before`next, after`next
    ensures NullEnded(PartitionBy(ns, vs, x))
    ensures newFirst == (if PartitionBy(ns, vs, x) == [] then null else PartitionBy(ns, vs, x)[0])
  {
    DealtAll(beforeList, afterList, ns, vs, x, lo, hi);
    JoinChains(before, after, afterList, lo, hi);
    newFirst := beforeList.next;
    LinkedFront(beforeList, PartitionBy(ns, vs, x));
  }

  /** Once every cell has been dealt out, the two chains hold no cell
      twice, and the low chain continued by the high one after its dummy
      is the low dummy followed by the partition. */
  lemma DealtAll(bd: Node<int>, ad: Node<int>, ns: seq<Node<int>>, vs: seq<int>, x: int, lo: seq<Node<int>>, hi: seq<Node<int>>)
    requires |ns| == |vs|
    requires lo == [bd] + PartTo(ns, vs, x, true, |ns|) && hi == [ad] + PartTo(ns, vs, x, false, |ns|)
    requires Distinct(lo + hi + ns[|ns|..])
    ensures Distinct(lo + hi) && hi[0] == ad
    ensures lo + hi[1..] == [bd] + PartitionBy(ns, vs, x)
  {
    assert lo + hi + ns[|ns|..] == lo + hi;
    assert hi[1..] == PartTo(ns, vs, x, false, |ns|);
  }

  /** Ending the chain hi with null and continuing the chain lo with the
      cells of hi after its first (afterList) gives the null-terminated
      spine lo + hi[1..]. */
  method JoinChains<T>(before: Node<T>, after: Node<T>, afterList: Node<T>, ghost lo: seq<Node<T>>, ghost hi: seq<Node<T>>)
    requires EndsAt(lo, before) && EndsAt(hi, after) && Distinct(lo + hi) && afterList == hi[0]
    modifies before`next, after`next
    ensures Linked(lo + hi[1..]) && (lo + hi[1..])[|lo| + |hi| - 2].next == null
  {
    after.next := null;
    before.next := afterList.next;
    ghost var t := lo + hi;
    DistinctPairs(t);
    ghost var j := lo + hi[1..];
    forall k {:trigger j[k].next} | 0 <= k < |j| - 1 ensures j[k].next == j[k + 1] {
      if k < |lo| - 1 {
        assert j[k] == lo[k] == t[k] && j[k + 1] == lo[k + 1] && t[|lo| - 1] == before && t[|lo| + |hi| - 1] == after;
      } else if k >= |lo| {
        assert j[k] == hi[k - |lo| + 1] == t[k + 1] && j[k + 1] == hi[k - |lo| + 2];
        assert t[|lo| - 1] == before && t[|lo| + |hi| - 1] == after;
      } else {
        assert j[k] == before && (|hi| > 1 ==> j[k + 1] == hi[1]);
      }
    }
  }

  /** The partitioned spine, relinked, is a chain of the same length that
      stores the partitioned values. */
  lemma PartitionShape(newHead: Node?<int>, length: int, ns: seq<Node<int>>, vs: seq<int>, x: int)
    requires Stores(ns, vs) && length == |ns|
    requires NullEnded(PartitionBy(ns, vs, x))
    requires newHead == (if PartitionBy(ns, vs, x) == [] then null else PartitionBy(ns, vs, x)[0])
    ensures Chain(newHead, length, PartitionBy(ns, vs, x))
    ensures Stores(PartitionBy(ns, vs, x), Partition(vs, x))
  {
    StoresPartition(ns, vs, x);
    PartitionPermutation(vs, x);
    assert |multiset(Partition(vs, x))| == |vs|;
  }
}
