/** The singly linked list container DSLinkedList with its algorithm suite.

    The list owns a chain of heap cells: `head` is the first cell, `tail`
    a non-owning reference to the last one, `length` the cell count. The
    ghost spine `nodes` lists the cells in chain order; `Valid()` ties it
    to the real fields and links, and `Contents` is the abstract value. */
module LinkedList {
  import opened Seqs
  import opened Chains
  import opened Relink

  class DSLinkedList<T(0,==)> {
    var head: Node?<T>
    var tail: Node?<T>
    var length: int
    ghost var nodes: seq<Node<T>>
    /** The values held, head first. */
    ghost var Contents: seq<T>

    /** The class invariant: head == nodes[0], each cell links to the
        next, the last ends the chain and is tail, length counts the
        cells, an empty list has null head and tail, and the cells store
        Contents in order. */
    ghost predicate Valid()
      reads this, nodes
    {
      ListShape(head, tail, length, nodes) && Stores(nodes, Contents)
    }

    // -------------------------------------------------------------------
    // Construction, copy and move
    // -------------------------------------------------------------------

    /** An empty list. */
    constructor ()
      ensures Valid() && nodes == [] && Contents == []
    {
      head, tail, length := null, null, 0;
      nodes, Contents := [], [];
    }

    /** A list holding one value; that cell is both head and tail. */
    constructor Singleton(v: T)
      ensures Valid() && Contents == [v]
      ensures head == tail && length == 1 && nodes == [head] && fresh(head)
    {
      var n := new Node(v);
      head, tail, length := n, n, 1;
      nodes, Contents := [n], [v];
    }

    /** The copy constructor: fresh cells holding the other list's values. */
    constructor Copy(other: DSLinkedList<T>)
      requires other.Valid()
      ensures Valid() && Contents == other.Contents
      ensures forall k :: 0 <= k < |nodes| ==> fresh(nodes[k])
    {
      head, tail, length := null, null, 0;
      nodes, Contents := [], [];
      new;
      AppendAll(other);
    }

    /** Copy assignment: unless assigning to itself, drop the own cells
        and append a copy of each of the other list's values. */
    method CopyAssign(other: DSLinkedList<T>)
      requires Valid() && other.Valid()
      modifies this
      ensures Valid() && Contents == old(other.Contents)
      ensures this == other ==> nodes == old(nodes)
      ensures this != other ==> forall k :: 0 <= k < |nodes| ==> fresh(nodes[k])
    {
      if this != other {
        head, tail, length := null, null, 0;
        nodes, Contents := [], [];
        AppendAll(other);
      }
    }

    /** The copy loop shared by the copy constructor and copy assignment:
        walk the other list and append each value. */
    method AppendAll(other: DSLinkedList<T>)
      requires Valid() && nodes == [] && other.Valid() && other != this
      modifies this
      ensures Valid() && Contents == old(other.Contents)
      ensures forall k :: 0 <= k < |nodes| ==> fresh(nodes[k])
    {
      var current := other.head;
      ghost var i := 0;
      ghost var src := other.Contents;
      while current != null
        invariant Valid() && other.Valid() && other.Contents == src
        invariant 0 <= i <= |other.nodes|
        invariant current == if i < |other.nodes| then other.nodes[i] else null
        invariant Contents == src[..i]
        invariant forall k :: 0 <= k < |nodes| ==> fresh(nodes[k])
        decreases |other.nodes| - i
      {
        assert current.value == src[i];
        assert src[..i + 1] == src[..i] + [src[i]];
        Append(current.value);
        current := current.next;
        i := i + 1;
      }
    }

    /** The move constructor: take over the other list's cells and leave
        it empty. */
    constructor Move(other: DSLinkedList<T>)
      requires other.Valid()
      modifies other
      ensures Valid() && nodes == old(other.nodes) && Contents == old(other.Contents)
      ensures other.Valid() && other.nodes == [] && other.Contents == []
    {
      head, tail, length := other.head, other.tail, other.length;
      nodes, Contents := other.nodes, other.Contents;
      new;
      other.head, other.tail, other.length := null, null, 0;
      other.nodes, other.Contents := [], [];
    }

    /** Move assignment: unless assigning to itself, take over the other
        list's cells and leave it empty. */
    method MoveAssign(other: DSLinkedList<T>)
      requires Valid() && other.Valid()
      modifies this, other
      ensures Valid() && other.Valid()
      ensures this == other ==> nodes == old(nodes) && Contents == old(Contents)
      ensures this != other ==> nodes == old(other.nodes) && Contents == old(other.Contents)
      ensures this != other ==> other.nodes == [] && other.Contents == []
    {
      if this != other {
        head, tail, length := other.head, other.tail, other.length;
        nodes, Contents := other.nodes, other.Contents;
        other.head, other.tail, other.length := null, null, 0;
        other.nodes, other.Contents := [], [];
      }
    }

    // -------------------------------------------------------------------
    // Core operations
    // -------------------------------------------------------------------

    /** relinkTail: recompute tail by walking from head to the last cell. */
    method RelinkTail()
      requires Chain(head, length, nodes) && Stores(nodes, Contents)
      modifies this`tail
      ensures Valid()
    {
      tail := head;
      ghost var k := 0;
      while tail != null && tail.next != null
        invariant if nodes == [] then tail == null else 0 <= k < |nodes| && tail == nodes[k]
        decreases |nodes| - k
      {
        ChainNext(head, length, nodes, k);
        tail := tail.next;
        k := k + 1;
      }
      if tail != null {
        ChainNext(head, length, nodes, k);
      }
    }

    /** Add a value at the end in O(1), through tail. */
    method Append(v: T)
      requires Valid()
      modifies this, nodes`next
      ensures Valid()
      ensures nodes == old(nodes) + [tail] && fresh(tail)
      ensures length == old(length) + 1
      ensures Contents == old(Contents) + [v]
    {
      var newNode := new Node(v);
      if head == null {
        head := newNode;
        tail := head;
      } else {
        ChainUnique(head, length, nodes, |nodes| - 1);
        tail.next := newNode;
        tail := tail.next;
      }
      length := length + 1;
      nodes, Contents := nodes + [newNode], Contents + [v];
    }

    /** Add a value at the front. */
    method Prepend(v: T)
      requires Valid()
      modifies this
      ensures Valid()
      ensures nodes == [head] + old(nodes) && fresh(head)
      ensures length == old(length) + 1
      ensures Contents == [v] + old(Contents)
    {
      var newNode := new Node(v);
      if head == null {
        head := newNode;
        tail := head;
      } else {
        newNode.next := head;
        head := newNode;
      }
      length := length + 1;
      nodes, Contents := [newNode] + nodes, [v] + Contents;
    }

    /** Remove the last value; the predecessor of tail is found by a scan. */
    method DeleteLast()
      requires Valid()
      modifies this, nodes`next
      ensures Valid()
      ensures old(length) == 0 ==> nodes == old(nodes)
      ensures old(length) == 1 ==> head == null && tail == null && length == 0
      ensures old(length) > 0 ==> nodes == old(nodes)[..old(length) - 1] && length == old(length) - 1
      ensures Contents == if old(length) == 0 then old(Contents) else old(Contents)[..old(length) - 1]
    {
      if head == null {
        return;
      }
      assert |nodes| > 1 ==> nodes[0].next == nodes[1];
      if head.next == null {
        head := null;
        tail := null;
        length := 0;
        nodes, Contents := [], [];
        return;
      }
      var prev := head;
      ghost var k := 0;
      while prev.next != tail
        invariant 0 <= k < |nodes| - 1 && prev == nodes[k]
        decreases |nodes| - k
      {
        prev := prev.next;
        k := k + 1;
      }
      assert prev.next == nodes[k + 1];
      assert k == |nodes| - 2;
      ghost var ns := nodes[..|nodes| - 1];
      ChainUnique(head, length, nodes, k);
      prev.next := null;
      tail := prev;
      length := length - 1;
      nodes, Contents := ns, Contents[..|Contents| - 1];
      assert Linked(ns) by {
        forall j {:trigger ns[j].next} | 0 <= j < |ns| - 1 ensures ns[j].next == ns[j + 1] {
          assert old(nodes[j].next) == nodes[j + 1];
        }
      }
    }

    /** Remove the first value. */
    method DeleteFirst()
      requires Valid()
      modifies this
      ensures Valid()
      ensures old(length) == 0 ==> nodes == old(nodes)
      ensures old(length) == 1 ==> head == null && tail == null && length == 0
      ensures old(length) > 0 ==> nodes == old(nodes)[1..] && length == old(length) - 1
      ensures Contents == if old(length) == 0 then old(Contents) else old(Contents)[1..]
    {
      if head == null {
        return;
      }
      if length == 1 {
        head := null;
        tail := null;
      } else {
        head := head.next;
      }
      length := length - 1;
      nodes, Contents := nodes[1..], Contents[1..];
    }

    /** The cell at a zero-based index, or null when the index is out of
        range. */
    method Get(index: int) returns (r: Node?<T>)
      requires Valid()
      ensures (r != null) == (0 <= index < length)
      ensures r != null ==> r == nodes[index] && r.value == Contents[index]
    {
      if index < 0 || index >= length {
        return null;
      }
      var current := head;
      for i := 0 to index
        invariant current == nodes[i]
      {
        current := current.next;
      }
      return current;
    }

    /** Overwrite the value at an index; reports whether the index was
        valid. Only that position changes; the cells stay the same. */
    method Set(index: int, v: T) returns (ok: bool)
      requires Valid()
      modifies nodes`value, this`Contents
      ensures Valid()
      ensures ok == (0 <= index < length)
      ensures ok ==> Contents == old(Contents)[index := v]
      ensures !ok ==> Contents == old(Contents)
    {
      var current := Get(index);
      if current != null {
        ChainUnique(head, length, nodes, index);
        current.value := v;
        Contents := Contents[index := v];
        return true;
      }
      return false;
    }

    /** Insert a value so that it ends up at the given index; an index
        outside 0..length is refused and changes nothing. */
    method Insert(index: int, v: T) returns (ok: bool)
      requires Valid()
      modifies this, nodes`next
      ensures Valid()
      ensures ok == (0 <= index <= old(length))
      ensures !ok ==> nodes == old(nodes)
      ensures ok ==> |nodes| == |old(nodes)| + 1 && fresh(nodes[index])
      ensures ok ==> nodes == old(nodes)[..index] + [nodes[index]] + old(nodes)[index..]
      ensures ok ==> Contents == old(Contents)[..index] + [v] + old(Contents)[index..]
      ensures !ok ==> Contents == old(Contents)
    {
      if index < 0 || index > length {
        return false;
      }
      ghost var ns, vs := nodes, Contents;
      if index == 0 {
        Prepend(v);
        SpliceEnds(ns, head);
        SpliceEnds(vs, v);
        return true;
      }
      if index == length {
        Append(v);
        SpliceEnds(ns, tail);
        SpliceEnds(vs, v);
        return true;
      }
      var newNode := new Node(v);
      var current := Get(index - 1);
      LinkAfter(current, newNode, index);
      assert nodes[index] == newNode;
      return true;
    }

    /** The middle case of Insert: the new cell x is linked in right
        after prev, the cell at index - 1, and takes over prev's link. */
    method LinkAfter(prev: Node<T>, x: Node<T>, index: int)
      requires Valid() && 0 < index < length && prev == nodes[index - 1] && x !in nodes
      modifies this, prev`next, x`next
      ensures Valid()
      ensures nodes == old(nodes)[..index] + [x] + old(nodes)[index..]
      ensures Contents == old(Contents)[..index] + [x.value] + old(Contents)[index..]
    {
      ghost var ns := nodes;
      ghost var vs := Contents;
      ChainNext(head, length, nodes, index - 1);
      ChainUnique(head, length, ns, index - 1);
      x.next := prev.next;
      label before:
      prev.next := x;
      length := length + 1;
      nodes, Contents := ns[..index] + [x] + ns[index..], vs[..index] + [x.value] + vs[index..];
      assert ListShape(head, tail, length, nodes) by {
        forall j {:trigger ns[j].next} | 0 <= j < |ns| - 1 && j != index - 1 ensures ns[j].next == ns[j + 1] {
          assert old@before(ns[j].next) == ns[j + 1];
        }
        assert old@before(ns[|ns| - 1].next) == null;
        ShapeInsert(ns, index, x);
      }
      assert Stores(nodes, Contents) by {
        assert Stores(ns, vs);
        StoresInsert(ns, vs, index, x);
      }
    }

    /** Remove the value at an index; an index outside 0..length-1 changes
        nothing. */
    method RemoveAt(index: int)
      requires Valid()
      modifies this, nodes`next
      ensures Valid()
      ensures !(0 <= index < old(length)) ==> nodes == old(nodes)
      ensures 0 <= index < old(length) ==> nodes == old(nodes)[..index] + old(nodes)[index + 1..]
      ensures 0 <= index < old(length) ==> Contents == old(Contents)[..index] + old(Contents)[index + 1..]
      ensures !(0 <= index < old(length)) ==> Contents == old(Contents)
    {
      if index < 0 || index >= length {
        return;
      }
      ghost var ns, vs := nodes, Contents;
      CutEnds(ns);
      CutEnds(vs);
      if index == 0 {
        DeleteFirst();
        return;
      }
      if index == length - 1 {
        DeleteLast();
        return;
      }
      var prev := Get(index - 1);
      UnlinkAfter(prev, index);
    }

    /** The middle case of RemoveAt: prev, the cell at index - 1, is made
        to skip the cell at index. */
    method UnlinkAfter(prev: Node<T>, index: int)
      requires Valid() && 0 < index < length - 1 && prev == nodes[index - 1]
      modifies this, nodes`next
      ensures Valid()
      ensures nodes == old(nodes)[..index] + old(nodes)[index + 1..]
      ensures Contents == old(Contents)[..index] + old(Contents)[index + 1..]
    {
      ghost var ns := nodes;
      ghost var vs := Contents;
      ChainNext(head, length, nodes, index - 1);
      ChainNext(head, length, nodes, index);
      ChainUnique(head, length, ns, index - 1);
      label before:
      prev.next := prev.next.next;
      length := length - 1;
      nodes, Contents := ns[..index] + ns[index + 1..], vs[..index] + vs[index + 1..];
      assert ListShape(head, tail, length, nodes) by {
        forall j {:trigger ns[j].next} | 0 <= j < |ns| - 1 && j != index - 1 && j != index ensures ns[j].next == ns[j + 1] {
          assert old@before(ns[j].next) == ns[j + 1];
        }
        assert old@before(ns[|ns| - 1].next) == null;
        ShapeDrop(ns, index);
      }
      assert Stores(nodes, Contents) by {
        assert Stores(ns, vs);
        StoresDrop(ns, vs, index);
      }
    }

    /** The number of values, which is the number of cells reachable from
        head: following that many links from head reaches the end. */
    function Size(): (n: int)
      reads this, nodes
      requires Valid()
      ensures n == |Contents|
      ensures Closed(nodes) && Follow(head, n, nodes) == null
      ensures forall k :: 0 <= k < n ==> Follow(head, k, nodes) != null
    {
      ChainReach(head, length, nodes);
      length
    }

    // -------------------------------------------------------------------
    // Algorithms
    // -------------------------------------------------------------------

    /** reverse: reverse the list in place by turning every link around;
        the old head becomes the tail. */
    method Reverse()
      requires Valid()
      modifies this, nodes`next
      ensures Valid()
      ensures nodes == Seqs.Reverse(old(nodes))
      ensures Contents == Seqs.Reverse(old(Contents))
    {
      if head == null || head.next == null {
        ReverseShort(nodes);
        ReverseShort(Contents);
        return;
      }
      ghost var ns, vs := nodes, Contents;
      var current := head;
      tail := current;
      head := ReverseLinks(current, ns);
      nodes, Contents := Seqs.Reverse(ns), Seqs.Reverse(vs);
      assert ListShape(head, tail, length, nodes) by {
        ShapeReverse(ns);
      }
      assert Stores(nodes, Contents) by {
        assert Stores(ns, vs);
        StoresReverse(ns, vs);
      }
    }

    /** reverseSubset: when 0 <= m < n < length, reverse the cells at
        positions m .. n in place; any other (m, n) leaves the list as it
        is. */
    method ReverseSubset(m: int, n: int)
      requires Valid()
      modifies this, nodes`next
      ensures Valid()
      ensures 0 <= m < n < old(length) ==>
        nodes == ReverseRange(old(nodes), m, n) && Contents == ReverseRange(old(Contents), m, n)
      ensures !(0 <= m < n < old(length)) ==> nodes == old(nodes) && Contents == old(Contents)
    {
      if head == null || m == n || m < 0 || n < m || n >= length {
        return;
      }
      RelinkRange(m, n);
    }

    /** The part of reverseSubset past its guard, for 0 <= m < n < length:
        a dummy cell in front of head stands in for the cell before m. */
    method RelinkRange(m: int, n: int)
      requires Valid() && 0 <= m < n < length
      modifies this, nodes`next
      ensures Valid()
      ensures nodes == ReverseRange(old(nodes), m, n) && Contents == ReverseRange(old(Contents), m, n)
    {
      ghost var ns, vs := nodes, Contents;
      var z: T := *;
      var dummy := new Node(z);
      dummy.next := head;
      ReverseRangeLinks(dummy, ns, m, n);
      ghost var r, w := ReverseRange(ns, m, n), ReverseRange(vs, m, n);
      StoresReverseRange(ns, vs, m, n);
      head := dummy.next;
      nodes, Contents := r, w;
      RelinkTail();
    }

    /** swapPairs: exchange the cells of each adjacent pair (0, 1), (2, 3),
        ... by relinking, a trailing odd cell staying last. */
    method SwapPairs()
      requires Valid()
      modifies this, nodes`next
      ensures Valid()
      ensures nodes == Seqs.SwapPairs(old(nodes)) && Contents == Seqs.SwapPairs(old(Contents))
    {
      ghost var ns, vs := nodes, Contents;
      var z: T := *;
      var dummy := new Node(z);
      dummy.next := head;
      SwapLinks(dummy, ns);
      head := dummy.next;
      StoresSwapPairs(ns, vs);
      nodes, Contents := Seqs.SwapPairs(ns), Seqs.SwapPairs(vs);
      RelinkTail();
    }

    /** findMiddle: a slow cursor moves one cell for every two of a fast
        cursor; when the fast one runs out the slow one is at index
        length / 2 (the second of the two middles of an even list). */
    method FindMiddle() returns (r: Node?<T>)
      requires Valid()
      ensures (r == null) == (length == 0)
      ensures r != null ==> r == nodes[length / 2] && r.value == Contents[length / 2]
    {
      if head == null {
        return null;
      }
      var slow := head;
      var fast: Node?<T> := head;
      ghost var i := 0;
      while fast != null && fast.next != null
        invariant 0 <= 2 * i <= |nodes| && slow == nodes[i]
        invariant fast == if 2 * i < |nodes| then nodes[2 * i] else null
        decreases |nodes| - 2 * i
      {
        ChainNext(head, length, nodes, 2 * i);
        ChainNext(head, length, nodes, i);
        fast := fast.next.next;
        slow := slow.next;
        i := i + 1;
      }
      return slow;
    }

    /** findKthNodeFromEnd: a lead cursor is sent k cells ahead, then both
        cursors move until the lead runs out. A k outside 1..length gives
        null; the walk never consults length. */
    method FindKthNodeFromEnd(k: int) returns (r: Node?<T>)
      requires Valid()
      ensures (r != null) == (1 <= k <= length)
      ensures r != null ==> r == nodes[length - k] && r.value == Contents[length - k]
    {
      if k <= 0 || head == null {
        return null;
      }
      var fast: Node?<T> := head;
      var slow := head;
      for i := 0 to k
        invariant i <= |nodes|
        invariant fast == if i < |nodes| then nodes[i] else null
      {
        if fast == null {
          return null;
        }
        ChainNext(head, length, nodes, i);
        fast := fast.next;
      }
      ghost var j := 0;
      while fast != null
        invariant 0 <= j && j + k <= |nodes| && slow == nodes[j]
        invariant fast == if j + k < |nodes| then nodes[j + k] else null
        decreases |nodes| - j
      {
        ChainNext(head, length, nodes, j + k);
        ChainNext(head, length, nodes, j);
        slow := slow.next;
        fast := fast.next;
        j := j + 1;
      }
      return slow;
    }
    /** removeDuplicatesFromSortedList: walk the list; while the next cell
        holds the current value, cut it out, otherwise step to it. Each run
        of adjacent equal values keeps its first cell, and tail follows
        when the last cell goes. */
    method RemoveDuplicatesFromSortedList()
      requires Valid()
      modifies this, nodes`next
      ensures Valid()
      ensures nodes == Keep(old(nodes), FirstOfRun(old(Contents)))
      ensures Contents == Dedup(old(Contents))
    {
      ghost var ns, vs := nodes, Contents;
      // An empty list leaves the loop at once.
      if head == null {
        return;
      }
      var current: Node<T> := head;
      ghost var j := 1;
      ghost var ks, ws := [ns[0]], [vs[0]];
      assert ns[..1] == [ns[0]] && vs[..1] == [vs[0]];
      KeepPrefix(ns, FirstOfRun(vs), 0);
      KeepPrefix(vs, FirstOfRun(vs), 0);
      while current.next != null
        invariant Valid() && DedupProgress(ns, vs, j, ks, ws, current)
        decreases |ns| - j
      {
        current, ks, ws := DedupStep(current, ns, vs, j, ks, ws);
        j := j + 1;
      }
      assert current == nodes[|ks| - 1];
      ChainNext(head, length, nodes, |ks| - 1);
      assert j == |ns|;
      KeepWhole(ns, FirstOfRun(vs), j);
      KeepWhole(vs, FirstOfRun(vs), j);
      AppendDropAll(ks, ns, j);
      AppendDropAll(ws, vs, j);
    }

    /** How far removeDuplicatesFromSortedList has got through the cells
        ns holding vs: the first j have been examined, the cells ks and
        values ws are the first of each run among them, the list is ks
        followed by the cells not yet examined, and current, the last kept
        cell, holds the value of the last examined one. */
    ghost predicate DedupProgress(ns: seq<Node<T>>, vs: seq<T>, j: int, ks: seq<Node<T>>, ws: seq<T>, current: Node<T>)
      reads this, current
      requires |ns| == |vs|
    {
      && 0 < j <= |ns| && current in ns
      && ks == Keep(ns[..j], FirstOfRun(vs)[..j]) && ws == Keep(vs[..j], FirstOfRun(vs)[..j])
      && nodes == ks + ns[j..] && Contents == ws + vs[j..] && |ks| == |ws|
      && ks != [] && current == ks[|ks| - 1] && current.value == vs[j - 1]
    }

    /** One turn of the loop of removeDuplicatesFromSortedList, when the
        current cell has a successor: cut the successor out if it repeats
        the current value, otherwise move on to it. */
    method DedupStep(current: Node<T>, ghost ns: seq<Node<T>>, ghost vs: seq<T>, ghost j: int,
                     ghost ks: seq<Node<T>>, ghost ws: seq<T>)
      returns (next: Node<T>, ghost ks': seq<Node<T>>, ghost ws': seq<T>)
      requires |ns| == |vs| && Valid() && DedupProgress(ns, vs, j, ks, ws, current)
      requires current.next != null
      modifies this, current`next
      ensures Valid() && DedupProgress(ns, vs, j + 1, ks', ws', next)
    {
      ghost var m := FirstOfRun(vs);
      ChainNext(head, length, nodes, |ks| - 1);
      assert ns[j..][1..] == ns[j + 1..] && vs[j..][1..] == vs[j + 1..];
      assert current.next == ns[j] && current.next.value == vs[j];
      KeepPrefix(ns, m, j);
      KeepPrefix(vs, m, j);
      if current.value == current.next.value {
        UnlinkNext(current, ks, ns[j..], ws, vs[j..]);
        next, ks', ws' := current, ks, ws;
      } else {
        ShiftFront(ks, ns[j..]);
        ShiftFront(ws, vs[j..]);
        next := current.next;
        ks', ws' := ks + [ns[j]], ws + [vs[j]];
      }
    }

    /** The cutting step of removeDuplicatesFromSortedList: prev, the
        last of the cells ks, is made to skip the first of the cells rest
        that follow it, and when prev is left last it becomes the tail. */
    method UnlinkNext(prev: Node<T>, ghost ks: seq<Node<T>>, ghost rest: seq<Node<T>>,
                      ghost ws: seq<T>, ghost wrest: seq<T>)
      requires Valid() && nodes == ks + rest && Contents == ws + wrest
      requires ks != [] && rest != [] && |ks| == |ws| && prev == ks[|ks| - 1]
      modifies this, prev`next
      ensures Valid()
      ensures nodes == ks + rest[1..] && Contents == ws + wrest[1..]
    {
      ghost var ns := nodes;
      ghost var vs := Contents;
      ghost var index := |ks|;
      ChainNext(head, length, nodes, index - 1);
      ChainNext(head, length, nodes, index);
      ChainUnique(head, length, ns, index - 1);
      label before:
      var temp := prev.next;
      prev.next := temp.next;
      length := length - 1;
      if prev.next == null {
        tail := prev;
      }
      CutAfterPrefix(ks, rest);
      CutAfterPrefix(ws, wrest);
      nodes, Contents := ns[..index] + ns[index + 1..], vs[..index] + vs[index + 1..];
      assert ListShape(head, tail, length, nodes) by {
        forall j {:trigger ns[j].next} | 0 <= j < |ns| - 1 && j != index - 1 && j != index ensures ns[j].next == ns[j + 1] {
          assert old@before(ns[j].next) == ns[j + 1];
        }
        assert index + 1 < |ns| ==> old@before(ns[|ns| - 1].next) == null;
        ShapeCut(ns, index);
      }
      assert Stores(nodes, Contents) by {
        assert Stores(ns, vs);
        StoresDrop(ns, vs, index);
      }
    }
  }

  /** binaryToDecimal: read the values, head first, as the digits of a
      binary number; each step is result := (result << 1) | digit, which
      for a digit 0 or 1 is 2 * result + digit. */
  method BinaryToDecimal(list: DSLinkedList<int>) returns (r: int)
    requires list.Valid() && IsBinary(list.Contents)
    ensures r == BinaryValue(list.Contents)
    ensures 0 <= r < Pow2(|list.Contents|)
  {
    r := 0;
    var current := list.head;
    ghost var i := 0;
    while current != null
      invariant 0 <= i <= |list.nodes|
      invariant current == if i < |list.nodes| then list.nodes[i] else null
      invariant r == BinaryValue(list.Contents[..i])
      decreases |list.nodes| - i
    {
      ChainNext(list.head, list.length, list.nodes, i);
      assert list.Contents[..i + 1][..i] == list.Contents[..i];
      r := 2 * r + current.value;
      current := current.next;
      i := i + 1;
    }
    assert list.Contents[..i] == list.Contents;
    BinaryValueRange(list.Contents);
  }

  /** partitionList: relink the cells so that those holding a value below x
      come first and the others after, each side in its original order;
      the same cells, so the length is kept, and the new head is returned. */
  method PartitionList(list: DSLinkedList<int>, x: int) returns (h: Node?<int>)
    requires list.Valid()
    modifies list, list.nodes`next
    ensures list.Valid()
    ensures list.Contents == Partition(old(list.Contents), x)
    ensures list.nodes == PartitionBy(old(list.nodes), old(list.Contents), x)
    ensures h == list.head
  {
    if list.head == null {
      return null;
    }
    ghost var ns, vs := list.nodes, list.Contents;
    var first := list.head;
    list.head := null;
    var newHead := PartitionChain(first, ns, vs, x);
    list.head := newHead;
    PartitionShape(newHead, list.length, ns, vs, x);
    list.nodes, list.Contents := PartitionBy(ns, vs, x), Partition(vs, x);
    list.RelinkTail();
    h := list.head;
  }

  /** The demonstration's middle and k-th-from-end queries: on 1, 2, 3, 4
      the middle cell (the second of the two middles) holds 3, and so does
      the second cell from the end. */
  method MiddleDemo() returns (middle: int, kth: int)
    ensures middle == 3 && kth == 3
  {
    var nums := Listed3(1, 2, 3);
    nums.Append(4);
    var m := nums.FindMiddle();
    var k := nums.FindKthNodeFromEnd(2);
    middle, kth := m.value, k.value;
  }

  /** The demonstration's integer list: 1, 2, 3, 4, 5, then removing at
      index 2, at index 0 and at the last index, setting index 1 to 500
      and inserting 99 at index 1 leaves 2, 99, 500. The sizes the
      demonstrations print are read from length, which is what size()
      returns. */
  method IntListDemo() returns (list: DSLinkedList<int>, size: int)
    ensures list.Valid() && list.Contents == [2, 99, 500] && size == 3
  {
    list := Listed5(1, 2, 3, 4, 5);
    RemoveThree(list);
    EditTail(list);
    size := list.length;
  }

  /** The demonstration's removals from 1, 2, 3, 4, 5: at index 2, at
      index 0, then at the last index. The cells of 2 and 4 remain. */
  method RemoveThree(list: DSLinkedList<int>)
    requires list.Valid() && list.Contents == [1, 2, 3, 4, 5]
    modifies list, list.nodes`next
    ensures list.Valid() && list.Contents == [2, 4]
    ensures list.nodes == [old(list.nodes)[1], old(list.nodes)[3]]
  {
    RemoveInner(list);
    list.RemoveAt(list.length - 1);
  }

  /** The first two removals: at index 2, then at index 0. */
  method RemoveInner(list: DSLinkedList<int>)
    requires list.Valid() && list.Contents == [1, 2, 3, 4, 5]
    modifies list, list.nodes`next
    ensures list.Valid() && list.Contents == [2, 4, 5]
    ensures list.nodes == [old(list.nodes)[1], old(list.nodes)[3], old(list.nodes)[4]]
  {
    ghost var ns := list.nodes;
    list.RemoveAt(2);
    assert list.Contents == [1, 2, 4, 5];
    assert list.nodes == [ns[0], ns[1], ns[3], ns[4]];
    list.RemoveAt(0);
    assert list.nodes == [ns[1], ns[3], ns[4]];
  }

  /** The demonstration's edits of 2, 4: setting index 1 to 500, then
      inserting 99 at index 1. */
  method EditTail(list: DSLinkedList<int>)
    requires list.Valid() && list.Contents == [2, 4]
    modifies list, list.nodes`next, list.nodes`value
    ensures list.Valid() && list.Contents == [2, 99, 500]
  {
    var setOk := list.Set(1, 500);
    var insertOk := list.Insert(1, 99);
    assert list.Contents == [2] + [99] + [500];
  }

  /** A list built as the demonstrations build theirs: a one-value list,
      then appends. */
  method Listed2<T(0)>(a: T, b: T) returns (list: DSLinkedList<T>)
    ensures list.Valid() && list.Contents == [a, b] && fresh(list) && fresh(list.nodes)
  {
    list := new DSLinkedList<T>.Singleton(a);
    list.Append(b);
  }

  method Listed3<T(0)>(a: T, b: T, c: T) returns (list: DSLinkedList<T>)
    ensures list.Valid() && list.Contents == [a, b, c] && fresh(list) && fresh(list.nodes)
  {
    list := Listed2(a, b);
    list.Append(c);
  }

  method Listed5<T(0)>(a: T, b: T, c: T, d: T, e: T) returns (list: DSLinkedList<T>)
    ensures list.Valid() && list.Contents == [a, b, c, d, e] && fresh(list) && fresh(list.nodes)
  {
    list := Listed3(a, b, c);
    list.Append(d);
    list.Append(e);
  }

  /** The demonstration's string list: four strings, size 4. */
  method StringListDemo() returns (strings: DSLinkedList<string>, count: int)
    ensures strings.Valid() && strings.Contents == ["Hello", "World", "Template", "Example"] && count == 4
  {
    strings := Listed3("Hello", "World", "Template");
    strings.Append("Example");
    count := strings.length;
  }

  /** The demonstration's floating-point list: 3.14, 2.71, 1.41, size 3,
      which reverses to 1.41, 2.71, 3.14. */
  method RealListDemo() returns (numbers: DSLinkedList<real>, count: int)
    ensures numbers.Valid() && numbers.Contents == [1.41, 2.71, 3.14] && count == 3
  {
    numbers := Listed3(3.14, 2.71, 1.41);
    count := numbers.length;
    numbers.Reverse();
  }

  /** The earlier demonstration: 4, 65, 5, 67 has size 4, and deleting
      the last value twice leaves 4, 65, of size 2. */
  method EarlyDemo() returns (list: DSLinkedList<int>, sizeBefore: int, sizeAfter: int)
    ensures list.Valid() && list.Contents == [4, 65] && sizeBefore == 4 && sizeAfter == 2
  {
    list := Listed3(4, 65, 5);
    list.Append(67);
    sizeBefore := list.length;
    DeleteTwo(list);
    sizeAfter := list.length;
  }

  /** The earlier demonstration's two deleteLast calls on 4, 65, 5, 67. */
  method DeleteTwo(list: DSLinkedList<int>)
    requires list.Valid() && list.Contents == [4, 65, 5, 67]
    modifies list, list.nodes`next
    ensures list.Valid() && list.Contents == [4, 65]
  {
    list.DeleteLast();
    list.DeleteLast();
  }
}
