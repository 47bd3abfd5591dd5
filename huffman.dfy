/**
 * Building the Huffman tree of huffman/huffman.go: the node type,
 * `combineNodes`, the two orders nodes are sorted by, `search`, and the
 * two tree builders `buildTree` and `buildTreeSlowly`.
 */
module Huffman {
  import opened Bytes

  // ---------------------------------------------------------------------
  // Nodes
  // ---------------------------------------------------------------------

  /** `node`: a symbol with its frequency, or two children and the sum of their frequencies. */
  datatype Node = Leaf(val: int, freq: int) | Pair(freq: int, left: Node, right: Node)

  /** The `val` field of a node; an internal node's is 0. */
  function Val(n: Node): int
  {
    if n.Leaf? then n.val else 0
  }

  /** combineNodes: a new internal node over `a` and `b`, in that order. */
  function Combine(a: Node, b: Node): (n: Node)
    ensures n.Pair? && n.left == a && n.right == b
    ensures n.freq == a.freq + b.freq && Val(n) == 0
  {
    Pair(a.freq + b.freq, a, b)
  }

  /** Every internal node carries the sum of its children's frequencies. */
  predicate WellFormed(t: Node)
  {
    t.Pair? ==> t.freq == t.left.freq + t.right.freq && WellFormed(t.left) && WellFormed(t.right)
  }

  /** The leaves of a tree, as a multiset of leaf nodes. */
  function LeafBag(t: Node): multiset<Node>
  {
    if t.Leaf? then multiset{t} else LeafBag(t.left) + LeafBag(t.right)
  }

  /** The summed frequencies of a list of nodes. */
  function Total(s: seq<Node>): int
  {
    if s == [] then 0 else s[0].freq + Total(s[1..])
  }

  /** The leaves of a list of trees. */
  function Bag(s: seq<Node>): multiset<Node>
  {
    if s == [] then multiset{} else LeafBag(s[0]) + Bag(s[1..])
  }

  predicate AllWellFormed(s: seq<Node>)
  {
    forall k :: 0 <= k < |s| ==> WellFormed(s[k])
  }

  lemma {:induction false} TotalAppend(a: seq<Node>, b: seq<Node>)
    ensures Total(a + b) == Total(a) + Total(b)
    decreases |a|
  {
    if a == [] {
      assert a + b == b;
    } else {
      TotalAppend(a[1..], b);
      assert (a + b)[1..] == a[1..] + b;
    }
  }

  lemma {:induction false} BagAppend(a: seq<Node>, b: seq<Node>)
    ensures Bag(a + b) == Bag(a) + Bag(b)
    decreases |a|
  {
    if a == [] {
      assert a + b == b;
      assert Bag(a) == multiset{};
    } else {
      BagCons(a, b);
      BagAppend(a[1..], b);
    }
  }

  lemma BagCons(a: seq<Node>, b: seq<Node>)
    requires a != []
    ensures Bag(a + b) == LeafBag(a[0]) + Bag(a[1..] + b)
  {
    assert (a + b)[1..] == a[1..] + b;
  }

  lemma Cons(x: Node, r: seq<Node>)
    ensures Total([x] + r) == x.freq + Total(r)
    ensures Bag([x] + r) == LeafBag(x) + Bag(r)
  {
    assert ([x] + r)[1..] == r;
  }

  /** Taking node `j` out of a list takes its frequency out of the total. */
  lemma TotalRemove(q: seq<Node>, j: nat)
    requires j < |q|
    ensures Total(q) == q[j].freq + Total(q[..j] + q[j + 1..])
  {
    assert q[..j] + q[j..] == q;
    TotalAppend(q[..j], q[j..]);
    assert q[j..][1..] == q[j + 1..];
    TotalAppend(q[..j], q[j + 1..]);
  }

  /** Taking node `j` out of a list takes its leaves out of the bag. */
  lemma BagRemove(q: seq<Node>, j: nat)
    requires j < |q|
    ensures Bag(q) == LeafBag(q[j]) + Bag(q[..j] + q[j + 1..])
  {
    assert q[..j] + q[j..] == q;
    BagAppend(q[..j], q[j..]);
    assert q[j..][1..] == q[j + 1..];
    BagAppend(q[..j], q[j + 1..]);
  }

  /** Reordering a list keeps its total frequency and its leaves. */
  lemma {:induction false} TotalPerm(p: seq<Node>, q: seq<Node>)
    requires multiset(p) == multiset(q)
    ensures Total(p) == Total(q) && Bag(p) == Bag(q)
    decreases |p|
  {
    if p == [] {
      assert |q| == |multiset(q)| == 0;
    } else {
      assert p[0] in multiset(q);
      var j :| 0 <= j < |q| && q[j] == p[0];
      RemoveMatch(p, q, j);
      TotalPerm(p[1..], q[..j] + q[j + 1..]);
      TotalRemove(q, j);
      BagRemove(q, j);
      Cons(p[0], p[1..]);
      assert p == [p[0]] + p[1..];
    }
  }

  // ---------------------------------------------------------------------
  // The two sort orders
  // ---------------------------------------------------------------------

  /** `nodeList` sorts by frequency, `byVal` by value. */
  datatype Order = ByFreq | ByVal

  function Key(o: Order, n: Node): int
  {
    if o == ByFreq then n.freq else Val(n)
  }

  predicate SortedBy(o: Order, s: seq<Node>)
  {
    forall i, j :: 0 <= i < j < |s| ==> Key(o, s[i]) <= Key(o, s[j])
  }

  /** Insertion ahead of the first node whose key is not below that of `x`. */
  function InsertBy(o: Order, x: Node, s: seq<Node>): seq<Node>
  {
    if s == [] then [x] else if Key(o, x) <= Key(o, s[0]) then [x] + s else [s[0]] + InsertBy(o, x, s[1..])
  }

  /** A reference sort by key; `sort.Sort` may put nodes of equal key in another order. */
  function SortBy(o: Order, s: seq<Node>): seq<Node>
  {
    if s == [] then [] else InsertBy(o, s[0], SortBy(o, s[1..]))
  }

  lemma {:induction false} InsertByPerm(o: Order, x: Node, s: seq<Node>)
    ensures multiset(InsertBy(o, x, s)) == multiset(s) + multiset{x}
    decreases |s|
  {
    if s != [] && Key(o, x) > Key(o, s[0]) {
      InsertByPerm(o, x, s[1..]);
      assert s == [s[0]] + s[1..];
    }
  }

  lemma InsertByMembers(o: Order, x: Node, s: seq<Node>, y: Node)
    requires y in InsertBy(o, x, s)
    ensures y == x || y in s
  {
    InsertByPerm(o, x, s);
    assert y in multiset(InsertBy(o, x, s));
  }

  lemma {:induction false} InsertBySorted(o: Order, x: Node, s: seq<Node>)
    requires SortedBy(o, s)
    ensures SortedBy(o, InsertBy(o, x, s))
    decreases |s|
  {
    if s != [] && Key(o, x) > Key(o, s[0]) {
      var rest := InsertBy(o, x, s[1..]);
      InsertBySorted(o, x, s[1..]);
      var r := [s[0]] + rest;
      forall i, j | 0 <= i < j < |r|
        ensures Key(o, r[i]) <= Key(o, r[j])
      {
        if i == 0 {
          assert r[j] == rest[j - 1];
          InsertByMembers(o, x, s[1..], r[j]);
          if r[j] != x {
            var k :| 0 <= k < |s[1..]| && s[1..][k] == r[j];
            assert s[k + 1] == r[j];
          }
        } else {
          assert r[i] == rest[i - 1] && r[j] == rest[j - 1];
        }
      }
    }
  }

  /** The reference sort returns a permutation of its input ... */
  lemma {:induction false} SortByPerm(o: Order, s: seq<Node>)
    ensures multiset(SortBy(o, s)) == multiset(s)
    decreases |s|
  {
    if s != [] {
      SortByPerm(o, s[1..]);
      InsertByPerm(o, s[0], SortBy(o, s[1..]));
      assert s == [s[0]] + s[1..];
    }
  }

  /** ... sorted by key. */
  lemma {:induction false} SortBySorted(o: Order, s: seq<Node>)
    ensures SortedBy(o, SortBy(o, s))
    decreases |s|
  {
    if s != [] {
      SortBySorted(o, s[1..]);
      InsertBySorted(o, s[0], SortBy(o, s[1..]));
    }
  }

  /**
   * `sort.Sort` on the nodes from `lo` on: afterwards they are sorted by
   * key and a permutation of what they were; nodes before `lo` stay.
   */
  method SortFrom(o: Order, nodes: array<Node>, lo: nat)
    requires lo <= nodes.Length
    modifies nodes
    ensures nodes[..lo] == old(nodes[..lo])
    ensures SortedBy(o, nodes[lo..])
    ensures multiset(nodes[lo..]) == multiset(old(nodes[lo..]))
  {
    var sorted := SortBy(o, nodes[lo..]);
    SortByPerm(o, nodes[lo..]);
    SortBySorted(o, nodes[lo..]);
    forall k | lo <= k < nodes.Length {
      nodes[k] := sorted[k - lo];
    }
    assert nodes[lo..] == sorted;
  }

  // ---------------------------------------------------------------------
  // search
  // ---------------------------------------------------------------------

  /** The last index from `i` down to 1 whose frequency is at most `f`, or 1. */
  function LastAtMost(nl: seq<Node>, f: int, i: nat): (r: nat)
    requires 1 <= i < |nl|
    ensures 1 <= r <= i
  {
    if i == 1 || nl[i].freq <= f then i else LastAtMost(nl, f, i - 1)
  }

  lemma {:induction false} LastAtMostSpec(nl: seq<Node>, f: int, i: nat)
    requires 1 <= i < |nl|
    ensures forall k :: LastAtMost(nl, f, i) < k <= i ==> nl[k].freq > f
    ensures nl[LastAtMost(nl, f, i)].freq <= f || LastAtMost(nl, f, i) == 1
  {
    if i > 1 && nl[i].freq > f {
      LastAtMostSpec(nl, f, i - 1);
    }
  }

  /** What `search` returns, as a function for use in the specification of `buildTree`. */
  function SearchIndex(nl: seq<Node>, f: int): (r: nat)
    ensures |nl| <= 1 ==> r == 0
    ensures |nl| >= 2 ==> 1 <= r < |nl|
  {
    if |nl| <= 1 then 0 else LastAtMost(nl, f, |nl| - 1)
  }

  /**
   * On two or more nodes, SearchIndex is the last index from the top
   * whose frequency is at most `f`, or 1 when there is none.
   */
  lemma SearchIndexSpec(nl: seq<Node>, f: int)
    requires |nl| >= 2
    ensures forall k :: SearchIndex(nl, f) < k < |nl| ==> nl[k].freq > f
    ensures nl[SearchIndex(nl, f)].freq <= f || SearchIndex(nl, f) == 1
  {
    LastAtMostSpec(nl, f, |nl| - 1);
  }

  /** Only one index meets that description. */
  lemma SearchIndexUnique(nl: seq<Node>, f: int, r: nat)
    requires |nl| >= 2 && 1 <= r < |nl|
    requires forall k :: r < k < |nl| ==> nl[k].freq > f
    requires nl[r].freq <= f || r == 1
    ensures r == SearchIndex(nl, f)
  {
    SearchIndexSpec(nl, f);
  }

  /**
   * search: `min` stays 0 until the loop ends, so `test = max + min/2`
   * probes `len-1`, `len-2`, ... downward and the result is the first of
   * them whose frequency is at most `freq`, or 1 when none is; a list of
   * fewer than two nodes gives 0.
   */
  method Search(nl: seq<Node>, freq: int) returns (test: int)
    ensures |nl| <= 1 ==> test == 0
    ensures |nl| >= 2 ==> 1 <= test < |nl|
    ensures |nl| >= 2 ==> forall k :: test < k < |nl| ==> nl[k].freq > freq
    ensures |nl| >= 2 ==> nl[test].freq <= freq || test == 1
  {
    var min := 0;
    var max := |nl| - 1;
    test := 0;
    while min < max
      invariant min == 0 || (min == test + 1 == max + 1 && 1 <= test < |nl| && nl[test].freq < freq)
      invariant max < |nl|
      invariant |nl| >= 1 ==> max >= 0
      invariant min == 0 ==> test == (if max == |nl| - 1 then 0 else max + 1)
      invariant forall k :: (if min == 0 then max else test) < k < |nl| ==> nl[k].freq > freq
      decreases max - min
    {
      test := max + min / 2;
      var testn := nl[test].freq;
      if testn == freq {
        return test;
      } else if testn < freq {
        min := test + 1;
      } else {
        max := test - 1;
      }
    }
  }

  // ---------------------------------------------------------------------
  // buildTree
  // ---------------------------------------------------------------------

  /**
   * One pass of the loop of `buildTree` on the live slice `s`: the two
   * lightest nodes are combined and the combined node is put where the
   * four cases of the `switch` put it; the slice loses its first node.
   */
  function Step(s: seq<Node>): (r: seq<Node>)
    requires |s| >= 2
    ensures |r| == |s| - 1
  {
    var n := Combine(s[0], s[1]);
    if |s| == 2 then [n]
    else if n.freq <= s[2].freq then [n] + s[2..]
    else if n.freq >= s[|s| - 1].freq then s[2..] + [n]
    else
      var idx := SearchIndex(s, n.freq);
      s[2..idx + 1] + [n] + s[idx + 1..]
  }

  /** The tree `buildTree` returns for an already sorted slice. */
  function Build(s: seq<Node>): Node
    requires |s| >= 1
    decreases |s|
  {
    if |s| == 1 then s[0] else Build(Step(s))
  }

  /** In the fourth case the search lands inside the slice, at index 2 or later. */
  lemma SearchInsideSlice(s: seq<Node>, f: int)
    requires SortedBy(ByFreq, s) && |s| >= 3
    requires s[2].freq < f < s[|s| - 1].freq
    ensures 2 <= SearchIndex(s, f) <= |s| - 2
    ensures s[SearchIndex(s, f)].freq <= f < s[SearchIndex(s, f) + 1].freq
  {
    SearchIndexSpec(s, f);
  }

  /** A node no lighter than every node of `a` and no heavier than any of `b` joins them sorted. */
  lemma InsertBetween(a: seq<Node>, n: Node, b: seq<Node>)
    requires SortedBy(ByFreq, a) && SortedBy(ByFreq, b)
    requires forall k :: 0 <= k < |a| ==> a[k].freq <= n.freq
    requires forall k :: 0 <= k < |b| ==> n.freq <= b[k].freq
    ensures SortedBy(ByFreq, a + [n] + b)
  {
    var r := a + [n] + b;
    var i := |a|;
    forall x, y | 0 <= x < y < |r|
      ensures r[x].freq <= r[y].freq
    {
      if y < i {
        assert r[x] == a[x] && r[y] == a[y];
      } else if y == i {
        assert r[x] == a[x];
      } else if x < i {
        assert r[x] == a[x] && r[y] == b[y - i - 1];
      } else if x > i {
        assert r[x] == b[x - i - 1] && r[y] == b[y - i - 1];
      } else {
        assert r[y] == b[y - i - 1];
      }
    }
  }

  lemma SliceSorted(s: seq<Node>, i: nat, j: nat)
    requires SortedBy(ByFreq, s) && i <= j <= |s|
    ensures SortedBy(ByFreq, s[i..j])
  {
    forall x, y | 0 <= x < y < j - i
      ensures s[i..j][x].freq <= s[i..j][y].freq
    {
      assert s[i..j][x] == s[i + x] && s[i..j][y] == s[i + y];
    }
  }

  /** The combined node goes in front when it is no heavier than the third node. */
  lemma StepFront(s: seq<Node>)
    requires |s| >= 3 && SortedBy(ByFreq, s)
    requires s[0].freq + s[1].freq <= s[2].freq
    ensures SortedBy(ByFreq, Step(s))
  {
    var n := Combine(s[0], s[1]);
    var b := s[2..];
    SliceSorted(s, 2, |s|);
    forall k | 0 <= k < |b|
      ensures n.freq <= b[k].freq
    {
      assert b[k] == s[k + 2];
    }
    InsertBetween([], n, b);
    assert [] + [n] + b == [n] + b;
  }

  /** The combined node goes last when it is at least as heavy as the last node. */
  lemma StepBack(s: seq<Node>)
    requires |s| >= 3 && SortedBy(ByFreq, s)
    requires s[0].freq + s[1].freq > s[2].freq && s[0].freq + s[1].freq >= s[|s| - 1].freq
    ensures SortedBy(ByFreq, Step(s))
  {
    var n := Combine(s[0], s[1]);
    var a := s[2..];
    SliceSorted(s, 2, |s|);
    forall k | 0 <= k < |a|
      ensures a[k].freq <= n.freq
    {
      assert a[k] == s[k + 2];
    }
    InsertBetween(a, n, []);
    assert a + [n] + [] == a + [n];
  }

  /** Otherwise it goes after the last node the search finds no heavier. */
  lemma StepMiddle(s: seq<Node>)
    requires |s| >= 3 && SortedBy(ByFreq, s)
    requires s[2].freq < s[0].freq + s[1].freq < s[|s| - 1].freq
    ensures SortedBy(ByFreq, Step(s))
  {
    var n := Combine(s[0], s[1]);
    var idx := SearchIndex(s, n.freq);
    StepMiddleShape(s);
    SearchInsideSlice(s, n.freq);
    var a, b := s[2..idx + 1], s[idx + 1..];
    SliceSorted(s, 2, idx + 1);
    SliceSorted(s, idx + 1, |s|);
    forall k | 0 <= k < |a|
      ensures a[k].freq <= n.freq
    {
      assert a[k] == s[k + 2];
    }
    forall k | 0 <= k < |b|
      ensures n.freq <= b[k].freq
    {
      assert b[k] == s[idx + 1 + k];
    }
    InsertBetween(a, n, b);
  }

  /** A pass keeps the slice sorted by frequency. */
  lemma StepSorted(s: seq<Node>)
    requires |s| >= 2 && SortedBy(ByFreq, s)
    ensures SortedBy(ByFreq, Step(s))
  {
    if |s| == 2 {
    } else if s[0].freq + s[1].freq <= s[2].freq {
      StepFront(s);
    } else if s[0].freq + s[1].freq >= s[|s| - 1].freq {
      StepBack(s);
    } else {
      StepMiddle(s);
    }
  }

  /** A pass only moves the combined node; the other nodes are those from index 2 on. */
  lemma StepPerm(s: seq<Node>)
    requires |s| >= 2
    ensures multiset(Step(s)) == multiset([Combine(s[0], s[1])] + s[2..])
  {
    var f := s[0].freq + s[1].freq;
    if |s| > 2 && f > s[2].freq {
      if f >= s[|s| - 1].freq {
        StepPermBack(s);
      } else {
        StepPermMiddle(s);
      }
    }
  }

  lemma StepPermBack(s: seq<Node>)
    requires |s| > 2 && s[0].freq + s[1].freq > s[2].freq && s[0].freq + s[1].freq >= s[|s| - 1].freq
    ensures multiset(Step(s)) == multiset([Combine(s[0], s[1])] + s[2..])
  {
    Shuffle(s[2..], Combine(s[0], s[1]), []);
  }

  lemma StepPermMiddle(s: seq<Node>)
    requires |s| > 2 && s[2].freq < s[0].freq + s[1].freq < s[|s| - 1].freq
    ensures multiset(Step(s)) == multiset([Combine(s[0], s[1])] + s[2..])
  {
    var n := Combine(s[0], s[1]);
    var idx := SearchIndex(s, n.freq);
    var a, b := s[2..idx + 1], s[idx + 1..];
    calc {
      multiset(Step(s));
    ==  { StepMiddleShape(s); }
      multiset(a + [n] + b);
    ==  { Shuffle(a, n, b); }
      multiset([n] + (a + b));
    ==  { assert a + b == s[2..]; }
      multiset([n] + s[2..]);
    }
  }

  /** In the fourth case the combined node goes right after index `search` of the old slice. */
  lemma StepMiddleShape(s: seq<Node>)
    requires |s| > 2 && s[2].freq < s[0].freq + s[1].freq < s[|s| - 1].freq
    ensures var n := Combine(s[0], s[1]); var idx := SearchIndex(s, n.freq);
      Step(s) == s[2..idx + 1] + [n] + s[idx + 1..]
  {
  }

  lemma Shuffle(a: seq<Node>, x: Node, b: seq<Node>)
    ensures multiset(a + [x] + b) == multiset([x] + (a + b))
    ensures multiset(a + [x]) == multiset([x] + a)
  {
  }

  /** Combining the first two nodes keeps the total frequency and the leaves of the list. */
  lemma CombineKeeps(s: seq<Node>)
    requires |s| >= 2
    ensures Total([Combine(s[0], s[1])] + s[2..]) == Total(s)
    ensures Bag([Combine(s[0], s[1])] + s[2..]) == Bag(s)
  {
    assert s == [s[0]] + ([s[1]] + s[2..]);
    Cons(Combine(s[0], s[1]), s[2..]);
    Cons(s[0], [s[1]] + s[2..]);
    Cons(s[1], s[2..]);
  }

  /** Combining two well-formed nodes of a list leaves a list of well-formed nodes. */
  lemma CombineWellFormed(s: seq<Node>)
    requires |s| >= 2 && AllWellFormed(s)
    ensures AllWellFormed([Combine(s[0], s[1])] + s[2..])
  {
    var r := [Combine(s[0], s[1])] + s[2..];
    forall k | 0 <= k < |r|
      ensures WellFormed(r[k])
    {
      if k > 0 {
        assert r[k] == s[k + 1];
      }
    }
  }

  /** Every node of a permutation of well-formed nodes is well formed. */
  lemma WellFormedPerm(p: seq<Node>, q: seq<Node>)
    requires multiset(p) == multiset(q) && AllWellFormed(q)
    ensures AllWellFormed(p)
  {
    forall k | 0 <= k < |p|
      ensures WellFormed(p[k])
    {
      assert p[k] in multiset(q);
    }
  }

  /** A pass keeps the total frequency, the leaves and well-formedness. */
  lemma StepKeeps(s: seq<Node>)
    requires |s| >= 2
    ensures Total(Step(s)) == Total(s)
    ensures Bag(Step(s)) == Bag(s)
    ensures AllWellFormed(s) ==> AllWellFormed(Step(s))
  {
    StepPerm(s);
    CombineKeeps(s);
    TotalPerm(Step(s), [Combine(s[0], s[1])] + s[2..]);
    if AllWellFormed(s) {
      CombineWellFormed(s);
      WellFormedPerm(Step(s), [Combine(s[0], s[1])] + s[2..]);
    }
  }

  /** The built tree weighs what the slice did, keeps its leaves and is well formed. */
  lemma {:induction false} BuildKeeps(s: seq<Node>)
    requires |s| >= 1
    ensures Build(s).freq == Total(s)
    ensures LeafBag(Build(s)) == Bag(s)
    ensures AllWellFormed(s) ==> WellFormed(Build(s))
    decreases |s|
  {
    if |s| == 1 {
      assert s == [s[0]];
      assert Total(s) == s[0].freq + Total([]);
    } else {
      StepKeeps(s);
      BuildKeeps(Step(s));
    }
  }

  /**
   * One pass of the loop of buildTree on `nodes[lo..]`: the four cases of
   * the `switch`, with Go's overlapping `copy` as a simultaneous shift.
   */
  method Pass(nodes: array<Node>, lo: nat)
    requires lo + 2 <= nodes.Length
    modifies nodes
    ensures nodes[lo + 1..] == Step(old(nodes[lo..]))
  {
    ghost var live := nodes[lo..];
    var last := nodes.Length - 1;
    var n := Combine(nodes[lo], nodes[lo + 1]);
    if nodes.Length - lo == 2 {
      nodes[lo + 1] := n;
    } else if n.freq <= nodes[lo + 2].freq {
      nodes[lo + 1] := n;
      assert nodes[lo + 1..] == [n] + live[2..];
    } else if n.freq >= nodes[last].freq {
      assert live[2..] == nodes[lo + 2..];
      ShiftBack(nodes, lo, n);
    } else {
      var idx := Search(nodes[lo..], n.freq);
      SearchIndexUnique(live, n.freq, idx);
      assert live[2..idx + 1] == nodes[lo + 2..lo + idx + 1];
      assert live[idx + 1..] == nodes[lo + idx + 1..];
      ShiftIn(nodes, lo, idx, n);
    }
  }

  /** The third case of the `switch`: shift the nodes after `lo + 1` left and put `n` last. */
  method ShiftBack(nodes: array<Node>, lo: nat, n: Node)
    requires lo + 2 <= nodes.Length
    modifies nodes
    ensures nodes[lo + 1..] == old(nodes[lo + 2..]) + [n]
  {
    var last := nodes.Length - 1;
    forall k | lo + 1 <= k < last {
      nodes[k] := nodes[k + 1];
    }
    nodes[last] := n;
  }

  /** The fourth case of the `switch`: shift `idx` nodes left and put `n` after them. */
  method ShiftIn(nodes: array<Node>, lo: nat, idx: nat, n: Node)
    requires 1 <= idx && lo + idx < nodes.Length
    modifies nodes
    ensures nodes[lo + 1..] == old(nodes[lo + 2..lo + idx + 1]) + [n] + old(nodes[lo + idx + 1..])
  {
    ghost var before := nodes[..];
    forall k | lo <= k < lo + idx {
      nodes[k] := nodes[k + 1];
    }
    nodes[lo + idx] := n;
    ghost var want := before[lo + 2..lo + idx + 1] + [n] + before[lo + idx + 1..];
    forall m | 0 <= m < |want|
      ensures nodes[lo + 1 + m] == want[m]
    {
      if m < idx - 1 {
        assert want[m] == before[lo + 2 + m];
      } else if m > idx - 1 {
        assert want[m] == before[lo + 1 + m];
      }
    }
    assert nodes[lo + 1..] == want;
  }

  /**
   * buildTree: sorts the nodes by frequency, then runs the passes of the
   * loop on the array, re-slicing from `lo`, until one node is left. The
   * ghost `sorted` is the order the sort left the nodes in.
   */
  method BuildTree(nodes: array<Node>) returns (root: Node, ghost sorted: seq<Node>)
    requires nodes.Length >= 1
    modifies nodes
    ensures SortedBy(ByFreq, sorted) && multiset(sorted) == multiset(old(nodes[..]))
    ensures root == Build(sorted)
  {
    SortFrom(ByFreq, nodes, 0);
    sorted := nodes[..];
    assert nodes[0..] == sorted;
    var lo := 0;
    while nodes.Length - lo > 1
      invariant 0 <= lo < nodes.Length
      invariant Build(nodes[lo..]) == Build(sorted)
      decreases nodes.Length - lo
    {
      Pass(nodes, lo);
      lo := lo + 1;
    }
    root := nodes[lo];
    assert nodes[lo..] == [root];
  }

  /**
   * One pass of the loop of buildTreeSlowly on `nodes[lo..]`: sort, then
   * drop the first node and put the combination of the first two in the
   * place of the second.
   */
  method SlowPass(nodes: array<Node>, lo: nat)
    requires lo + 2 <= nodes.Length
    modifies nodes
    ensures Total(nodes[lo + 1..]) == Total(old(nodes[lo..]))
    ensures Bag(nodes[lo + 1..]) == Bag(old(nodes[lo..]))
    ensures AllWellFormed(old(nodes[lo..])) ==> AllWellFormed(nodes[lo + 1..])
  {
    ghost var before := nodes[lo..];
    SortFrom(ByFreq, nodes, lo);
    ghost var live := nodes[lo..];
    TotalPerm(live, before);
    CombineKeeps(live);
    if AllWellFormed(before) {
      WellFormedPerm(live, before);
      CombineWellFormed(live);
    }
    var n := Combine(nodes[lo], nodes[lo + 1]);
    nodes[lo + 1] := n;
    assert nodes[lo + 1..] == [n] + live[2..];
  }

  /**
   * buildTreeSlowly: sorts the live slice on every pass, then drops its
   * first node and overwrites the next with the combination of the two.
   */
  method BuildTreeSlowly(nodes: array<Node>) returns (root: Node)
    requires nodes.Length >= 1
    modifies nodes
    ensures root.freq == Total(old(nodes[..]))
    ensures LeafBag(root) == Bag(old(nodes[..]))
    ensures AllWellFormed(old(nodes[..])) ==> WellFormed(root)
  {
    ghost var start := nodes[..];
    assert nodes[0..] == start;
    var lo := 0;
    while nodes.Length - lo > 1
      invariant 0 <= lo < nodes.Length
      invariant Total(nodes[lo..]) == Total(start) && Bag(nodes[lo..]) == Bag(start)
      invariant AllWellFormed(start) ==> AllWellFormed(nodes[lo..])
      decreases nodes.Length - lo
    {
      SlowPass(nodes, lo);
      lo := lo + 1;
    }
    root := nodes[lo];
    assert nodes[lo..] == [root];
    Cons(root, []);
  }
}
