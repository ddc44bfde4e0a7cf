/** Value-level specifications of the list algorithms: each relinking
    algorithm of the container is specified by what it does to the
    sequence of values (and, for the node spine, to the sequence of nodes),
    and the lemmas here state what those specifications mean. */
module Seqs {

  // ---------------------------------------------------------------------
  // Splicing at the ends
  // ---------------------------------------------------------------------

  /** Inserting at position 0 or at position |s| is prepending or
      appending. */
  lemma SpliceEnds<X>(s: seq<X>, x: X)
    ensures s[..0] + [x] + s[0..] == [x] + s
    ensures s[..|s|] + [x] + s[|s|..] == s + [x]
  {
  }

  /** Cutting out position 0 or position |s| - 1 drops the first or the
      last element. */
  lemma CutEnds<X>(s: seq<X>)
    requires |s| > 0
    ensures s[..0] + s[1..] == s[1..]
    ensures s[..|s| - 1] + s[|s|..] == s[..|s| - 1]
  {
  }

  /** Concatenation is associative. */
  lemma AppendAssoc<X>(a: seq<X>, b: seq<X>, c: seq<X>)
    ensures (a + b) + c == a + (b + c)
  {
  }

  // ---------------------------------------------------------------------
  // Distinct elements
  // ---------------------------------------------------------------------

  /** No element occurs twice: the first one does not occur again, and
      the rest is distinct. */
  ghost predicate Distinct<X>(s: seq<X>)
    decreases |s|
  {
    s == [] || (s[0] !in s[1..] && Distinct(s[1..]))
  }

  /** Distinct means that any two positions hold different elements. */
  lemma {:induction false} DistinctPairs<X>(s: seq<X>)
    ensures Distinct(s) <==> forall i, j :: 0 <= i < j < |s| ==> s[i] != s[j]
    decreases |s|
  {
    if s != [] {
      DistinctPairs(s[1..]);
      if Distinct(s) {
        forall i, j | 0 <= i < j < |s| ensures s[i] != s[j] {
          if i == 0 {
            assert s[j] == s[1..][j - 1];
          } else {
            assert s[i] == s[1..][i - 1] && s[j] == s[1..][j - 1];
          }
        }
      }
      if forall i, j :: 0 <= i < j < |s| ==> s[i] != s[j] {
        forall i, j | 0 <= i < j < |s[1..]| ensures s[1..][i] != s[1..][j] {
          assert s[1..][i] == s[i + 1] && s[1..][j] == s[j + 1];
        }
        forall k | 0 <= k < |s[1..]| ensures s[1..][k] != s[0] {
          assert s[1..][k] == s[k + 1];
        }
      }
    }
  }

  /** In a distinct sequence, the element at i occurs at no other
      position. */
  lemma DistinctAt<X>(s: seq<X>, i: int)
    requires Distinct(s) && 0 <= i < |s|
    ensures forall j :: 0 <= j < |s| && j != i ==> s[j] != s[i]
  {
    DistinctPairs(s);
  }

  /** Distinct means that no element is counted twice. */
  lemma {:induction false} DistinctCount<X>(s: seq<X>)
    ensures Distinct(s) <==> forall x :: multiset(s)[x] <= 1
    decreases |s|
  {
    if s != [] {
      DistinctCount(s[1..]);
      assert s == [s[0]] + s[1..];
      assert multiset(s) == multiset{s[0]} + multiset(s[1..]);
      if forall x :: multiset(s)[x] <= 1 {
        forall x ensures multiset(s[1..])[x] <= 1 {
          assert multiset(s)[x] >= multiset(s[1..])[x];
        }
        assert multiset(s)[s[0]] <= 1;
      }
    }
  }

  /** A rearrangement of a distinct sequence is distinct. */
  lemma DistinctPermutation<X>(s: seq<X>, t: seq<X>)
    requires Distinct(s) && multiset(s) == multiset(t)
    ensures Distinct(t)
  {
    DistinctCount(s);
    DistinctCount(t);
  }

  /** Two different elements in front of a distinct sequence that holds
      neither of them. */
  lemma DistinctCons<X>(a: X, b: X, s: seq<X>)
    requires Distinct(s) && a != b && a !in s && b !in s
    ensures Distinct([a] + [b] + s)
  {
    assert ([a] + [b] + s)[1..] == [b] + s;
    assert ([b] + s)[1..] == s;
  }

  /** Exchanging the first two parts keeps a sequence distinct. */
  lemma DistinctSwap<X>(a: seq<X>, b: seq<X>, c: seq<X>)
    requires Distinct(a + b + c)
    ensures Distinct(b + a + c)
  {
    DistinctPermutation(a + b + c, b + a + c);
  }

  /** Pigeonhole: a sequence of distinct elements drawn from t is no longer
      than t. */
  lemma {:induction false} DistinctWithin<X>(s: seq<X>, t: seq<X>)
    requires Distinct(s) && forall i :: 0 <= i < |s| ==> s[i] in t
    ensures |s| <= |t|
    decreases |s|
  {
    if s != [] {
      var j :| 0 <= j < |t| && t[j] == s[0];
      var t' := t[..j] + t[j + 1..];
      forall i | 0 <= i < |s[1..]| ensures s[1..][i] in t' {
        var y := s[i + 1];
        assert y in s[1..];
        var k :| 0 <= k < |t| && t[k] == y;
        if k < j {
          assert t'[k] == y;
        } else {
          assert t'[k - 1] == y;
        }
      }
      DistinctWithin(s[1..], t');
    }
  }

  // ---------------------------------------------------------------------
  // Reversal
  // ---------------------------------------------------------------------

  /** s read backwards. */
  function Reverse<X>(s: seq<X>): (r: seq<X>)
    ensures |r| == |s|
    ensures forall i :: 0 <= i < |s| ==> r[i] == s[|s| - 1 - i]
  {
    seq(|s|, i requires 0 <= i < |s| => s[|s| - 1 - i])
  }

  /** The recursive reading of reversal: the reversed rest, then the
      first element. */
  lemma ReverseCons<X>(s: seq<X>)
    requires s != []
    ensures Reverse(s) == Reverse(s[1..]) + [s[0]]
  {
    var r, t := Reverse(s), Reverse(s[1..]) + [s[0]];
    forall i | 0 <= i < |s| ensures r[i] == t[i] {
      if i < |s| - 1 {
        assert t[i] == s[1..][|s| - 2 - i];
      }
    }
  }

  /** A sequence of at most one element is its own reversal. */
  lemma ReverseShort<X>(s: seq<X>)
    requires |s| <= 1
    ensures Reverse(s) == s
  {
  }

  /** Reversing twice gives back the original. */
  lemma ReverseInvolution<X>(s: seq<X>)
    ensures Reverse(Reverse(s)) == s
  {
    var r := Reverse(Reverse(s));
    assert forall i :: 0 <= i < |s| ==> r[i] == s[i];
  }

  lemma ReverseMultiset<X>(s: seq<X>)
    ensures multiset(Reverse(s)) == multiset(s)
  {
    if s != [] {
      assert s == [s[0]] + s[1..];
      ReverseCons(s);
      ReverseMultiset(s[1..]);
    }
  }

  /** s with the closed index range m..n reversed and the rest in place:
      the part before m, the range reversed, the part after n. */
  function ReverseRange<X>(s: seq<X>, m: int, n: int): (r: seq<X>)
    requires 0 <= m <= n < |s|
    ensures |r| == |s|
  {
    s[..m] + Reverse(s[m..n + 1]) + s[n + 1..]
  }

  /** Position by position: inside the range, index k holds the element
      mirrored about the middle of m..n; outside it, its own element. */
  lemma ReverseRangeAt<X>(s: seq<X>, m: int, n: int)
    requires 0 <= m <= n < |s|
    ensures forall k :: 0 <= k < |s| ==> ReverseRange(s, m, n)[k] == if m <= k <= n then s[m + n - k] else s[k]
  {
    var r := ReverseRange(s, m, n);
    forall k | 0 <= k < |s| ensures r[k] == if m <= k <= n then s[m + n - k] else s[k] {
      if m <= k <= n {
        assert r[k] == Reverse(s[m..n + 1])[k - m];
      } else if k > n {
        assert r[k] == s[n + 1..][k - n - 1];
      }
    }
  }

  /** The spine of reverseSubset's relocation loop after i turns: a front
      element d, the part before m, the first i + 1 elements from m
      reversed, then the rest. The lemmas below show where its cells sit,
      how one turn changes it, and where it starts and ends. */
  function ReverseSpine<X>(d: X, s: seq<X>, m: int, i: int): seq<X>
    requires 0 <= m && 0 <= i && m + i < |s|
  {
    [d] + s[..m] + Reverse(s[m..m + i + 1]) + s[m + i + 1..]
  }

  lemma ReverseSpineAt<X>(d: X, s: seq<X>, m: int, i: int)
    requires 0 <= m && 0 <= i && m + i < |s|
    ensures |ReverseSpine(d, s, m, i)| == |s| + 1
    ensures m + i + 1 < |s| ==> ReverseSpine(d, s, m, i)[m + i + 2] == s[m + i + 1]
  {
  }

  /** c with its element at e + 1 moved to position j + 1, right after
      position j: the shape of one turn of reverseSubset's loop. */
  function MoveAfter<X>(c: seq<X>, j: int, e: int): (r: seq<X>)
    requires 0 <= j < e && e + 1 < |c|
    ensures |r| == |c| && r[j] == c[j] && r[j + 1] == c[e + 1] && r[e + 1] == c[e]
  {
    c[..j + 1] + [c[e + 1]] + c[j + 1..e + 1] + c[e + 2..]
  }

  /** One turn moves the element after the reversed block to its front. */
  lemma ReverseSpineStep<X>(d: X, s: seq<X>, m: int, i: int)
    requires 0 <= m && 0 <= i && m + i + 1 < |s|
    ensures MoveAfter(ReverseSpine(d, s, m, i), m, m + i + 1) == ReverseSpine(d, s, m, i + 1)
  {
    var c := ReverseSpine(d, s, m, i);
    assert c[..m + 1] == [d] + s[..m];
    assert c[m + 1..m + i + 2] == Reverse(s[m..m + i + 1]);
    assert c[m + i + 2] == s[m + i + 1];
    assert c[m + i + 3..] == s[m + i + 2..];
    assert s[m..m + i + 2] == s[m..m + i + 1] + [s[m + i + 1]];
    assert Reverse(s[m..m + i + 2]) == [s[m + i + 1]] + Reverse(s[m..m + i + 1]);
  }

  lemma ReverseSpineStart<X>(d: X, s: seq<X>, m: int)
    requires 0 <= m < |s|
    ensures [d] + s == ReverseSpine(d, s, m, 0)
  {
    assert s == s[..m] + s[m..m + 1] + s[m + 1..];
  }

  lemma ReverseSpineEnd<X>(d: X, s: seq<X>, m: int, n: int, i: int)
    requires 0 <= m <= n < |s| && i == n - m
    ensures ReverseSpine(d, s, m, i) == [d] + ReverseRange(s, m, n)
  {
  }

  /** Reversing the same range twice gives back the original. */
  lemma ReverseRangeInvolution<X>(s: seq<X>, m: int, n: int)
    requires 0 <= m <= n < |s|
    ensures ReverseRange(ReverseRange(s, m, n), m, n) == s
  {
    ReverseRangeAt(s, m, n);
    ReverseRangeAt(ReverseRange(s, m, n), m, n);
    var r := ReverseRange(ReverseRange(s, m, n), m, n);
    assert forall k :: 0 <= k < |s| ==> r[k] == s[k];
  }

  /** A range of one element changes nothing; the whole range is a reversal. */
  lemma ReverseRangeSingle<X>(s: seq<X>, m: int)
    requires 0 <= m < |s|
    ensures ReverseRange(s, m, m) == s
  {
    ReverseRangeAt(s, m, m);
    var r := ReverseRange(s, m, m);
    forall k | 0 <= k < |s| ensures r[k] == s[k] { }
  }

  lemma ReverseRangeWhole<X>(s: seq<X>)
    requires 0 < |s|
    ensures ReverseRange(s, 0, |s| - 1) == Reverse(s)
  {
    assert s[..0] == [] && s[0..|s|] == s && s[|s|..] == [];
  }

  lemma ReverseRangeMultiset<X>(s: seq<X>, m: int, n: int)
    requires 0 <= m <= n < |s|
    ensures multiset(ReverseRange(s, m, n)) == multiset(s)
  {
    ReverseMultiset(s[m..n + 1]);
    assert s == s[..m] + s[m..n + 1] + s[n + 1..];
  }

  // ---------------------------------------------------------------------
  // Selection by a mask (stable filtering)
  // ---------------------------------------------------------------------

  /** The elements xs[i] with mask[i] set, in their original order. */
  function Keep<X>(xs: seq<X>, mask: seq<bool>): (r: seq<X>)
    requires |mask| == |xs|
    ensures |r| <= |xs|
    decreases |xs|
  {
    if xs == [] then []
    else
      var n := |xs| - 1;
      Keep(xs[..n], mask[..n]) + (if mask[n] then [xs[n]] else [])
  }

  /** Keep of a sequence extended by one element. */
  lemma KeepSnoc<X>(xs: seq<X>, mask: seq<bool>, x: X, b: bool)
    requires |mask| == |xs|
    ensures Keep(xs + [x], mask + [b]) == Keep(xs, mask) + (if b then [x] else [])
  {
    assert (xs + [x])[..|xs|] == xs;
    assert (mask + [b])[..|xs|] == mask;
  }

  /** Keep of a prefix extended by one more position. */
  lemma KeepPrefix<X>(xs: seq<X>, mask: seq<bool>, j: int)
    requires |mask| == |xs| && 0 <= j < |xs|
    ensures Keep(xs[..j + 1], mask[..j + 1]) == Keep(xs[..j], mask[..j]) + (if mask[j] then [xs[j]] else [])
  {
    assert xs[..j + 1][..j] == xs[..j];
    assert mask[..j + 1][..j] == mask[..j];
  }

  /** Cutting out the element right after a prefix a of a + b. */
  lemma CutAfterPrefix<X>(a: seq<X>, b: seq<X>)
    requires b != []
    ensures (a + b)[..|a|] + (a + b)[|a| + 1..] == a + b[1..]
  {
    assert (a + b)[..|a|] == a;
    assert (a + b)[|a| + 1..] == b[1..];
  }

  /** Moving the first element of b to the end of a keeps a + b. */
  lemma ShiftFront<X>(a: seq<X>, b: seq<X>)
    requires b != []
    ensures (a + [b[0]]) + b[1..] == a + b
  {
    assert b == [b[0]] + b[1..];
  }

  /** Keep of the whole sequence, reached as its longest prefix. */
  lemma KeepWhole<X>(xs: seq<X>, mask: seq<bool>, j: int)
    requires |mask| == |xs| && j == |xs|
    ensures Keep(xs[..j], mask[..j]) == Keep(xs, mask)
  {
    assert xs[..j] == xs;
    assert mask[..j] == mask;
  }

  lemma AppendDropAll<X>(a: seq<X>, b: seq<X>, j: int)
    requires j == |b|
    ensures a + b[j..] == a
  {
    assert b[j..] == [];
  }

  /** A mask that is set everywhere keeps everything. */
  lemma {:induction false} KeepAll<X>(xs: seq<X>, mask: seq<bool>)
    requires |mask| == |xs| && forall i :: 0 <= i < |xs| ==> mask[i]
    ensures Keep(xs, mask) == xs
    decreases |xs|
  {
    if xs != [] {
      var n := |xs| - 1;
      KeepAll(xs[..n], mask[..n]);
    }
  }

  /** A mask that is clear everywhere keeps nothing. */
  lemma {:induction false} KeepNone<X>(xs: seq<X>, mask: seq<bool>)
    requires |mask| == |xs| && forall i :: 0 <= i < |xs| ==> !mask[i]
    ensures Keep(xs, mask) == []
    decreases |xs|
  {
    if xs != [] {
      var n := |xs| - 1;
      KeepNone(xs[..n], mask[..n]);
    }
  }

  /** Everything kept comes from xs, as often at most as it occurs there. */
  lemma {:induction false} KeepSubMultiset<X>(xs: seq<X>, mask: seq<bool>)
    requires |mask| == |xs|
    ensures multiset(Keep(xs, mask)) <= multiset(xs)
    decreases |xs|
  {
    if xs != [] {
      var n := |xs| - 1;
      assert xs == xs[..n] + [xs[n]];
      KeepSubMultiset(xs[..n], mask[..n]);
    }
  }

  /** Selection distributes over concatenation. */
  lemma {:induction false} KeepAppend<X>(a: seq<X>, ma: seq<bool>, b: seq<X>, mb: seq<bool>)
    requires |ma| == |a| && |mb| == |b|
    ensures Keep(a + b, ma + mb) == Keep(a, ma) + Keep(b, mb)
    decreases |b|
  {
    if b != [] {
      var n := |b| - 1;
      assert b == b[..n] + [b[n]] && mb == mb[..n] + [mb[n]];
      assert a + b == (a + b[..n]) + [b[n]];
      assert ma + mb == (ma + mb[..n]) + [mb[n]];
      KeepSnoc(a + b[..n], ma + mb[..n], b[n], mb[n]);
      KeepSnoc(b[..n], mb[..n], b[n], mb[n]);
      KeepAppend(a, ma, b[..n], mb[..n]);
    } else {
      assert a + b == a && ma + mb == ma;
    }
  }

  /** Selecting by two complementary masks splits xs into two parts that
      together are a permutation of xs. */
  lemma {:induction false} KeepComplementMultiset<X>(xs: seq<X>, m1: seq<bool>, m2: seq<bool>)
    requires |m1| == |xs| && |m2| == |xs|
    requires forall i :: 0 <= i < |xs| ==> m2[i] == !m1[i]
    ensures multiset(Keep(xs, m1) + Keep(xs, m2)) == multiset(xs)
    decreases |xs|
  {
    if xs != [] {
      var n := |xs| - 1;
      assert xs == xs[..n] + [xs[n]];
      KeepComplementMultiset(xs[..n], m1[..n], m2[..n]);
      var k1, k2 := Keep(xs[..n], m1[..n]), Keep(xs[..n], m2[..n]);
      assert multiset(Keep(xs, m1) + Keep(xs, m2)) == multiset(k1 + k2) + multiset{xs[n]};
    }
  }

  // ---------------------------------------------------------------------
  // Stable partition around a pivot
  // ---------------------------------------------------------------------

  /** The mask of positions whose value is below x. */
  function Below(vs: seq<int>, x: int): (m: seq<bool>)
    ensures |m| == |vs| && forall i :: 0 <= i < |vs| ==> m[i] == (vs[i] < x)
  {
    seq(|vs|, i requires 0 <= i < |vs| => vs[i] < x)
  }

  /** The mask of positions whose value is at least x. */
  function AtLeast(vs: seq<int>, x: int): (m: seq<bool>)
    ensures |m| == |vs| && forall i :: 0 <= i < |vs| ==> m[i] == (vs[i] >= x)
  {
    seq(|vs|, i requires 0 <= i < |vs| => vs[i] >= x)
  }

  /** The values below x, in order. */
  function FilterBelow(s: seq<int>, x: int): seq<int>
  {
    Keep(s, Below(s, x))
  }

  /** The values at least x, in order. */
  function FilterAtLeast(s: seq<int>, x: int): seq<int>
  {
    Keep(s, AtLeast(s, x))
  }

  /** Stable partition: the values below x, then the values at least x. */
  function Partition(s: seq<int>, x: int): seq<int>
  {
    FilterBelow(s, x) + FilterAtLeast(s, x)
  }

  lemma {:induction false} FilterBelowBounds(s: seq<int>, x: int)
    ensures forall i :: 0 <= i < |FilterBelow(s, x)| ==> FilterBelow(s, x)[i] < x
    ensures forall i :: 0 <= i < |FilterAtLeast(s, x)| ==> FilterAtLeast(s, x)[i] >= x
    decreases |s|
  {
    if s != [] {
      var n := |s| - 1;
      assert Below(s, x)[..n] == Below(s[..n], x);
      assert AtLeast(s, x)[..n] == AtLeast(s[..n], x);
      FilterBelowBounds(s[..n], x);
      assert FilterBelow(s, x) == FilterBelow(s[..n], x) + (if s[n] < x then [s[n]] else []);
      assert FilterAtLeast(s, x) == FilterAtLeast(s[..n], x) + (if s[n] >= x then [s[n]] else []);
    }
  }

  /** One side of the partition of the first i positions, built up one
      position at a time: the elements xs[k], k < i, whose value vs[k] is
      below x (below == true) or at least x (below == false). */
  function PartTo<X>(xs: seq<X>, vs: seq<int>, x: int, below: bool, i: int): seq<X>
    requires |xs| == |vs| && 0 <= i <= |xs|
    decreases i
  {
    if i == 0 then []
    else PartTo(xs, vs, x, below, i - 1) + (if (vs[i - 1] < x) == below then [xs[i - 1]] else [])
  }

  /** PartTo is the selection of the prefix by the side's mask. */
  lemma {:induction false} PartToPrefix<X>(xs: seq<X>, vs: seq<int>, x: int, i: int)
    requires |xs| == |vs| && 0 <= i <= |xs|
    ensures PartTo(xs, vs, x, true, i) == Keep(xs[..i], Below(vs, x)[..i])
    ensures PartTo(xs, vs, x, false, i) == Keep(xs[..i], AtLeast(vs, x)[..i])
    decreases i
  {
    if i > 0 {
      PartToPrefix(xs, vs, x, i - 1);
      KeepPrefix(xs, Below(vs, x), i - 1);
      KeepPrefix(xs, AtLeast(vs, x), i - 1);
    }
  }

  /** Built up to the end, the two sides are the selections by Below and
      AtLeast. */
  lemma PartToWhole<X>(xs: seq<X>, vs: seq<int>, x: int)
    requires |xs| == |vs|
    ensures PartTo(xs, vs, x, true, |xs|) == Keep(xs, Below(vs, x))
    ensures PartTo(xs, vs, x, false, |xs|) == Keep(xs, AtLeast(vs, x))
  {
    PartToPrefix(xs, vs, x, |xs|);
    assert xs[..|xs|] == xs && Below(vs, x)[..|xs|] == Below(vs, x) && AtLeast(vs, x)[..|xs|] == AtLeast(vs, x);
  }

  /** The stable partition of xs by the values vs: the elements whose
      value is below x, then the others, each side in its old order. */
  function PartitionBy<X>(xs: seq<X>, vs: seq<int>, x: int): seq<X>
    requires |xs| == |vs|
  {
    PartTo(xs, vs, x, true, |xs|) + PartTo(xs, vs, x, false, |xs|)
  }

  /** Partitioning the values by themselves is Partition. */
  lemma PartitionByValues(vs: seq<int>, x: int)
    ensures PartitionBy(vs, vs, x) == Partition(vs, x)
  {
    PartToWhole(vs, vs, x);
  }

  /** Partitioning the cells by their values only rearranges them. */
  lemma PartitionByPermutation<X>(xs: seq<X>, vs: seq<int>, x: int)
    requires |xs| == |vs|
    ensures multiset(PartitionBy(xs, vs, x)) == multiset(xs)
  {
    PartToWhole(xs, vs, x);
    KeepComplementMultiset(xs, Below(vs, x), AtLeast(vs, x));
  }

  /** The partition is a permutation of its input. */
  lemma PartitionPermutation(s: seq<int>, x: int)
    ensures multiset(Partition(s, x)) == multiset(s)
  {
    KeepComplementMultiset(s, Below(s, x), AtLeast(s, x));
  }

  /** Every value below x comes before every value at least x. */
  lemma PartitionOrdered(s: seq<int>, x: int)
    ensures forall i, j :: 0 <= i < j < |Partition(s, x)| && Partition(s, x)[j] < x ==> Partition(s, x)[i] < x
  {
    FilterBelowBounds(s, x);
  }

  /** Filtering distributes over concatenation. */
  lemma FilterAppend(b: seq<int>, a: seq<int>, x: int)
    ensures FilterBelow(b + a, x) == FilterBelow(b, x) + FilterBelow(a, x)
    ensures FilterAtLeast(b + a, x) == FilterAtLeast(b, x) + FilterAtLeast(a, x)
  {
    assert Below(b + a, x) == Below(b, x) + Below(a, x);
    assert AtLeast(b + a, x) == AtLeast(b, x) + AtLeast(a, x);
    KeepAppend(b, Below(b, x), a, Below(a, x));
    KeepAppend(b, AtLeast(b, x), a, AtLeast(a, x));
  }

  /** Filtering values that are all below x keeps them all on the low
      side and none on the high side. */
  lemma FilterAllBelow(b: seq<int>, x: int)
    requires forall i :: 0 <= i < |b| ==> b[i] < x
    ensures FilterBelow(b, x) == b && FilterAtLeast(b, x) == []
  {
    KeepAll(b, Below(b, x));
    KeepNone(b, AtLeast(b, x));
  }

  /** Filtering values that are all at least x keeps none on the low side
      and them all on the high side. */
  lemma FilterAllAtLeast(a: seq<int>, x: int)
    requires forall i :: 0 <= i < |a| ==> a[i] >= x
    ensures FilterBelow(a, x) == [] && FilterAtLeast(a, x) == a
  {
    KeepNone(a, Below(a, x));
    KeepAll(a, AtLeast(a, x));
  }

  /** Each side keeps the relative order it had in the input: filtering the
      result by either side gives back that side of the input. */
  lemma PartitionStable(s: seq<int>, x: int)
    ensures FilterBelow(Partition(s, x), x) == FilterBelow(s, x)
    ensures FilterAtLeast(Partition(s, x), x) == FilterAtLeast(s, x)
  {
    var b, a := FilterBelow(s, x), FilterAtLeast(s, x);
    FilterBelowBounds(s, x);
    FilterAppend(b, a, x);
    FilterAllBelow(b, x);
    FilterAllAtLeast(a, x);
  }

  // ---------------------------------------------------------------------
  // Collapsing runs of equal adjacent values
  // ---------------------------------------------------------------------

  /** The mask of positions that start a run of equal adjacent values. */
  function FirstOfRun<X(==)>(vs: seq<X>): (m: seq<bool>)
    ensures |m| == |vs| && forall i :: 0 <= i < |vs| ==> m[i] == (i == 0 || vs[i - 1] != vs[i])
  {
    seq(|vs|, i requires 0 <= i < |vs| => i == 0 || vs[i - 1] != vs[i])
  }

  /** Each run of equal adjacent values collapsed to its first element. */
  function Dedup<X(==)>(s: seq<X>): seq<X>
  {
    Keep(s, FirstOfRun(s))
  }

  /** Dedup of a sequence extended by one element. */
  lemma DedupSnoc<X>(s: seq<X>)
    requires s != []
    ensures var n := |s| - 1;
      Dedup(s) == Dedup(s[..n]) + (if n == 0 || s[n - 1] != s[n] then [s[n]] else [])
  {
    var n := |s| - 1;
    assert FirstOfRun(s)[..n] == FirstOfRun(s[..n]);
  }

  /** Dedup keeps the first and the last value. */
  lemma {:induction false} DedupEnds<X>(s: seq<X>)
    requires s != []
    ensures Dedup(s) != [] && Dedup(s)[0] == s[0] && Dedup(s)[|Dedup(s)| - 1] == s[|s| - 1]
    decreases |s|
  {
    var n := |s| - 1;
    DedupSnoc(s);
    if n > 0 {
      DedupEnds(s[..n]);
    }
  }

  /** The result has no two equal adjacent values. */
  lemma {:induction false} DedupNoAdjacentEqual<X>(s: seq<X>)
    ensures forall i :: 0 < i < |Dedup(s)| ==> Dedup(s)[i - 1] != Dedup(s)[i]
    decreases |s|
  {
    if s != [] {
      var n := |s| - 1;
      DedupSnoc(s);
      DedupNoAdjacentEqual(s[..n]);
      if n > 0 {
        DedupEnds(s[..n]);
      }
    }
  }

  /** A sequence without equal adjacent values is left unchanged. */
  lemma {:induction false} DedupUnchanged<X>(s: seq<X>)
    requires forall i :: 0 < i < |s| ==> s[i - 1] != s[i]
    ensures Dedup(s) == s
  {
    KeepAll(s, FirstOfRun(s));
  }

  /** Every value of the input survives, and nothing new appears. */
  lemma {:induction false} DedupSameValues<X>(s: seq<X>)
    ensures forall y :: y in Dedup(s) <==> y in s
    decreases |s|
  {
    if s != [] {
      var n := |s| - 1;
      DedupSnoc(s);
      DedupSameValues(s[..n]);
      assert s == s[..n] + [s[n]];
      if n > 0 && s[n - 1] == s[n] {
        assert s[n - 1] in s[..n];
      }
    }
  }

  /** Collapsing runs only removes: every value occurs in the result at
      most as often as in the input, and the result is no longer. */
  lemma DedupRemovesOnly<X>(s: seq<X>)
    ensures multiset(Dedup(s)) <= multiset(s) && |Dedup(s)| <= |s|
  {
    KeepSubMultiset(s, FirstOfRun(s));
    assert |multiset(Dedup(s))| <= |multiset(s)|;
  }

  /** Collapsing runs is idempotent. */
  lemma DedupIdempotent<X>(s: seq<X>)
    ensures Dedup(Dedup(s)) == Dedup(s)
  {
    DedupNoAdjacentEqual(s);
    DedupUnchanged(Dedup(s));
  }

  ghost predicate Sorted(s: seq<int>)
  {
    forall i, j :: 0 <= i < j < |s| ==> s[i] <= s[j]
  }

  ghost predicate StrictlySorted(s: seq<int>)
  {
    forall i, j :: 0 <= i < j < |s| ==> s[i] < s[j]
  }

  /** On sorted input each value is left exactly once: the result is
      strictly increasing (so no value repeats) and has the same values. */
  lemma {:induction false} DedupSorted(s: seq<int>)
    requires Sorted(s)
    ensures StrictlySorted(Dedup(s))
    ensures Distinct(Dedup(s))
    ensures forall y :: y in Dedup(s) <==> y in s
  {
    DedupSameValues(s);
    DedupStrict(s);
    StrictlySortedDistinct(Dedup(s));
  }

  lemma {:induction false} DedupStrict(s: seq<int>)
    requires Sorted(s)
    ensures StrictlySorted(Dedup(s))
    decreases |s|
  {
    if s != [] {
      var n := |s| - 1;
      DedupSnoc(s);
      assert Sorted(s[..n]);
      DedupStrict(s[..n]);
      if n > 0 && s[n - 1] != s[n] {
        DedupEnds(s[..n]);
        assert s[n - 1] <= s[n];
        StrictlySortedSnoc(Dedup(s[..n]), s[n]);
      }
    }
  }

  /** A strictly increasing sequence stays so when extended by a value
      above its last one. */
  lemma StrictlySortedSnoc(d: seq<int>, y: int)
    requires StrictlySorted(d) && (d != [] ==> d[|d| - 1] < y)
    ensures StrictlySorted(d + [y])
  {
    var t := d + [y];
    forall i, j | 0 <= i < j < |t| ensures t[i] < t[j] {
      if j == |d| {
        assert t[i] == d[i];
        if i < |d| - 1 {
          assert d[i] < d[|d| - 1];
        }
      } else {
        assert t[i] == d[i] && t[j] == d[j];
      }
    }
  }

  lemma StrictlySortedDistinct(s: seq<int>)
    requires StrictlySorted(s)
    ensures Distinct(s)
  {
    DistinctPairs(s);
  }

  // ---------------------------------------------------------------------
  // Big-endian binary numbers
  // ---------------------------------------------------------------------

  ghost predicate IsBinary(s: seq<int>)
  {
    forall i :: 0 <= i < |s| ==> s[i] == 0 || s[i] == 1
  }

  function Pow2(w: nat): (p: nat)
    ensures p >= 1
  {
    if w == 0 then 1 else 2 * Pow2(w - 1)
  }

  /** The number whose digits, most significant first, are s: the left
      fold result := 2 * result + digit over s. */
  function BinaryValue(s: seq<int>): int
  {
    if s == [] then 0 else 2 * BinaryValue(s[..|s| - 1]) + s[|s| - 1]
  }

  /** The w-digit big-endian binary representation of n mod 2^w. */
  function Bits(n: nat, w: nat): (s: seq<int>)
    ensures |s| == w && IsBinary(s)
  {
    if w == 0 then [] else Bits(n / 2, w - 1) + [n % 2]
  }

  /** A binary sequence of w digits denotes a number in [0, 2^w). */
  lemma {:induction false} BinaryValueRange(s: seq<int>)
    requires IsBinary(s)
    ensures 0 <= BinaryValue(s) < Pow2(|s|)
    decreases |s|
  {
    if s != [] {
      BinaryValueRange(s[..|s| - 1]);
    }
  }

  /** Decoding the representation of n gives back n. */
  lemma {:induction false} BinaryValueOfBits(n: nat, w: nat)
    requires n < Pow2(w)
    ensures BinaryValue(Bits(n, w)) == n
    decreases w
  {
    if w > 0 {
      var s := Bits(n, w);
      assert s[..w - 1] == Bits(n / 2, w - 1);
      BinaryValueOfBits(n / 2, w - 1);
    }
  }

  /** Encoding the value of a binary sequence gives back the sequence. */
  lemma {:induction false} BitsOfBinaryValue(s: seq<int>)
    requires IsBinary(s)
    ensures BinaryValue(s) >= 0 && Bits(BinaryValue(s), |s|) == s
    decreases |s|
  {
    BinaryValueRange(s);
    if s != [] {
      var n := |s| - 1;
      assert IsBinary(s[..n]);
      BitsOfBinaryValue(s[..n]);
      BinaryValueRange(s[..n]);
      var v := BinaryValue(s);
      assert v / 2 == BinaryValue(s[..n]) && v % 2 == s[n];
      assert s == s[..n] + [s[n]];
    }
  }

  // ---------------------------------------------------------------------
  // Swapping adjacent pairs
  // ---------------------------------------------------------------------

  /** The position whose element lands at position i when pairs
      (0,1), (2,3), ... of a sequence of length n are swapped; a trailing
      odd element stays where it is. */
  function Mate(i: int, n: int): int
  {
    if i % 2 == 1 then i - 1 else if i + 1 < n then i + 1 else i
  }

  /** s with the elements of each adjacent pair (2j, 2j+1) exchanged. */
  function SwapPairs<X>(s: seq<X>): (r: seq<X>)
    ensures |r| == |s|
  {
    seq(|s|, i requires 0 <= i < |s| => s[Mate(i, |s|)])
  }

  /** An independent, recursive statement of the same operation: swap the
      first two elements and carry on with the rest. */
  lemma {:induction false} SwapPairsUnfold<X>(s: seq<X>)
    ensures |s| < 2 ==> SwapPairs(s) == s
    ensures |s| >= 2 ==> SwapPairs(s) == [s[1], s[0]] + SwapPairs(s[2..])
  {
    if |s| >= 2 {
      var r := [s[1], s[0]] + SwapPairs(s[2..]);
      forall i | 0 <= i < |s| ensures SwapPairs(s)[i] == r[i] {
        if i >= 2 {
          assert Mate(i, |s|) == Mate(i - 2, |s| - 2) + 2;
        }
      }
    } else {
      assert forall i :: 0 <= i < |s| ==> SwapPairs(s)[i] == s[i];
    }
  }

  /** The spine of the swapPairs loop after p elements (p = 2h): a front
      element d, the first p elements of the swapped sequence r, then the
      rest of s. The lemmas below show where its cells sit, how one turn
      changes it, and where it ends. */
  function SwapSpine<X>(d: X, r: seq<X>, s: seq<X>, p: int): seq<X>
    requires 0 <= p <= |r| && p <= |s|
  {
    [d] + r[..p] + s[p..]
  }

  lemma SwapSpineAt<X>(d: X, r: seq<X>, s: seq<X>, p: int, h: int)
    requires r == SwapPairs(s) && 0 <= p <= |s| && p == 2 * h
    ensures |SwapSpine(d, r, s, p)| == |s| + 1
    ensures p == 0 ==> SwapSpine(d, r, s, p)[p] == d
    ensures p > 0 ==> SwapSpine(d, r, s, p)[p] == s[p - 2]
    ensures p < |s| ==> SwapSpine(d, r, s, p)[p + 1] == s[p]
    ensures p + 1 < |s| ==> SwapSpine(d, r, s, p)[p + 2] == s[p + 1]
  {
    if p > 0 {
      assert (p - 1) % 2 == 1;
      assert r[p - 1] == s[Mate(p - 1, |s|)];
    }
  }

  /** c with its elements at i + 1 and i + 2 exchanged: the shape of one
      turn of swapPairs' loop. */
  function SwapAfter<X>(c: seq<X>, i: int): (r: seq<X>)
    requires 0 <= i && i + 2 < |c|
    ensures |r| == |c| && r[i] == c[i] && r[i + 2] == c[i + 1]
  {
    c[..i + 1] + [c[i + 2], c[i + 1]] + c[i + 3..]
  }

  /** One turn exchanges the next two elements of s, extending the
      swapped part by a pair. */
  lemma SwapSpineStep<X>(d: X, r: seq<X>, s: seq<X>, p: int, h: int)
    requires r == SwapPairs(s) && 0 <= p && p + 1 < |s| && p == 2 * h
    ensures SwapAfter(SwapSpine(d, r, s, p), p) == SwapSpine(d, r, s, p + 2)
  {
    var c := SwapSpine(d, r, s, p);
    assert c[..p + 1] == [d] + r[..p];
    assert c[p + 1] == s[p] && c[p + 2] == s[p + 1];
    assert c[p + 3..] == s[p + 2..];
    assert p % 2 == 0 && (p + 1) % 2 == 1;
    assert r[p] == s[Mate(p, |s|)] && r[p + 1] == s[Mate(p + 1, |s|)];
    assert r[..p + 2] == r[..p] + [s[p + 1], s[p]];
  }

  /** When fewer than two elements remain, the spine is the front element
      followed by the whole swapped sequence. */
  lemma SwapSpineEnd<X>(d: X, r: seq<X>, s: seq<X>, p: int, h: int)
    requires r == SwapPairs(s) && 0 <= p <= |s| && |s| - p < 2 && p == 2 * h
    ensures SwapSpine(d, r, s, p) == [d] + r
  {
    if p < |s| {
      assert p % 2 == 0;
      assert r[p] == s[Mate(p, |s|)];
      assert r == r[..p] + [r[p]];
    }
  }

  /** Swapping pairs twice gives back the original. */
  lemma SwapPairsInvolution<X>(s: seq<X>)
    ensures SwapPairs(SwapPairs(s)) == s
  {
    var r := SwapPairs(SwapPairs(s));
    forall i | 0 <= i < |s| ensures r[i] == s[i] {
      assert Mate(Mate(i, |s|), |s|) == i;
    }
  }

  /** Swapping pairs rearranges the elements and nothing else. */
  lemma {:induction false} SwapPairsMultiset<X>(s: seq<X>)
    ensures multiset(SwapPairs(s)) == multiset(s)
    decreases |s|
  {
    SwapPairsUnfold(s);
    if |s| >= 2 {
      SwapPairsMultiset(s[2..]);
      assert s == [s[0], s[1]] + s[2..];
    }
  }

  // ---------------------------------------------------------------------
  // The demonstration program's expected outputs
  // ---------------------------------------------------------------------

  lemma DemoBinary()
    ensures BinaryValue([1, 0, 1]) == 5
  {
    assert [1, 0, 1][..2] == [1, 0] && [1, 0][..1] == [1] && [1][..0] == [];
  }

  lemma DemoReverseRange()
    ensures ReverseRange([1, 2, 3, 4, 5], 1, 3) == [1, 4, 3, 2, 5]
  {
    var s := [1, 2, 3, 4, 5];
    ReverseRangeAt(s, 1, 3);
    var r := ReverseRange(s, 1, 3);
    assert r[0] == s[0];
    assert r[1] == s[3];
    assert r[2] == s[2];
    assert r[3] == s[1];
    assert r[4] == s[4];
  }

  lemma DemoSwapPairs()
    ensures SwapPairs([1, 2, 3, 4, 5]) == [2, 1, 4, 3, 5]
  {
    assert Mate(0, 5) == 1 && Mate(1, 5) == 0 && Mate(2, 5) == 3 && Mate(3, 5) == 2 && Mate(4, 5) == 4;
  }

  /** Collapsing the runs of 1, 1, 2, 3, 3, 3, 4 leaves 1, 2, 3, 4; the
      demonstration's list 1, 2, 3, 4, 5 has no runs and stays as it is. */
  lemma DemoDedup()
    ensures Dedup([1, 1, 2, 3, 3, 3, 4]) == [1, 2, 3, 4]
    ensures Dedup([1, 2, 3, 4, 5]) == [1, 2, 3, 4, 5]
  {
    var s := [1, 1, 2, 3, 3, 3, 4];
    DedupSnoc(s[..1]);
    assert s[..1][..0] == [];
    DedupSnoc(s[..2]);
    assert s[..2][..1] == s[..1];
    DedupSnoc(s[..3]);
    assert s[..3][..2] == s[..2];
    DedupSnoc(s[..4]);
    assert s[..4][..3] == s[..3];
    DedupSnoc(s[..5]);
    assert s[..5][..4] == s[..4];
    DedupSnoc(s[..6]);
    assert s[..6][..5] == s[..5];
    DedupSnoc(s);
    DedupUnchanged([1, 2, 3, 4, 5]);
  }

  lemma DemoPartition()
    ensures Partition([1, 4, 3, 2, 5, 2], 3) == [1, 2, 2, 4, 3, 5]
  {
    var s := [1, 4, 3, 2, 5, 2];
    PartToWhole(s, s, 3);
    assert PartTo(s, s, 3, true, 6) == [1, 2, 2];
    assert PartTo(s, s, 3, false, 6) == [4, 3, 5];
  }
}
