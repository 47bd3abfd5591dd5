/**
 * The order in which `genBookFromTree` (huffman/huffman.go) meets the
 * leaves: level by level, each level in ascending symbol order, and for a
 * tree `NewBook` builds, every symbol exactly once.
 */
module WalkOrder {
  import opened Bytes
  import opened Huffman
  import opened Canonical
  import opened BookProofs
  import opened BookCodes

  // ---------------------------------------------------------------------
  // Lists mapped element by element
  // ---------------------------------------------------------------------

  function Map<A, B>(s: seq<A>, f: A -> B): (r: seq<B>)
    ensures |r| == |s|
  {
    if s == [] then [] else Map(s[..|s| - 1], f) + [f(s[|s| - 1])]
  }

  lemma {:induction false} MapAt<A, B>(s: seq<A>, f: A -> B, i: nat)
    requires i < |s|
    ensures Map(s, f)[i] == f(s[i])
    decreases |s|
  {
    if i < |s| - 1 {
      MapAt(s[..|s| - 1], f, i);
    }
  }

  lemma {:induction false} MapAppend<A, B>(a: seq<A>, b: seq<A>, f: A -> B)
    ensures Map(a + b, f) == Map(a, f) + Map(b, f)
    decreases |b|
  {
    if b == [] {
      assert a + b == a;
    } else {
      MapAppend(a, b[..|b| - 1], f);
      assert (a + b)[..|a + b| - 1] == a + b[..|b| - 1];
    }
  }

  lemma MapRemove<A, B>(q: seq<A>, j: nat, f: A -> B)
    requires j < |q|
    ensures multiset(Map(q, f)) == multiset{f(q[j])} + multiset(Map(q[..j] + q[j + 1..], f))
  {
    assert q[..j] + q[j..] == q;
    MapAppend(q[..j], q[j..], f);
    assert q[j..] == [q[j]] + q[j + 1..];
    MapCons(q[j], q[j + 1..], f);
    MapAppend(q[..j], q[j + 1..], f);
  }

  lemma MapCons<A, B>(x: A, r: seq<A>, f: A -> B)
    ensures Map([x] + r, f) == [f(x)] + Map(r, f)
  {
    MapAppend([x], r, f);
    assert [x][..0] == [];
  }

  /** Reordering a list reorders its image. */
  lemma {:induction false} MapPerm<A, B>(p: seq<A>, q: seq<A>, f: A -> B)
    requires multiset(p) == multiset(q)
    ensures multiset(Map(p, f)) == multiset(Map(q, f))
    decreases |p|
  {
    if p == [] {
      assert |q| == |multiset(q)| == 0;
    } else {
      assert p[0] in multiset(q);
      var j :| 0 <= j < |q| && q[j] == p[0];
      RemoveMatch(p, q, j);
      MapPerm(p[1..], q[..j] + q[j + 1..], f);
      MapPermStep(p, q, j, f);
    }
  }

  lemma MapPermStep<A, B>(p: seq<A>, q: seq<A>, j: nat, f: A -> B)
    requires p != [] && j < |q| && q[j] == p[0]
    requires multiset(Map(p[1..], f)) == multiset(Map(q[..j] + q[j + 1..], f))
    ensures multiset(Map(p, f)) == multiset(Map(q, f))
  {
    MapRemove(q, j, f);
    MapRemove(p, 0, f);
    assert p[..0] + p[1..] == p[1..];
  }

  // ---------------------------------------------------------------------
  // Lists without repetitions
  // ---------------------------------------------------------------------

  predicate NoDup<T(==)>(s: seq<T>)
  {
    forall i, j :: 0 <= i < j < |s| ==> s[i] != s[j]
  }

  /** An element of a list without repetitions occurs once. */
  lemma {:induction false} NoDupCount<T>(s: seq<T>, x: T)
    requires NoDup(s)
    ensures multiset(s)[x] == if x in s then 1 else 0
    decreases |s|
  {
    if s != [] {
      var init := s[..|s| - 1];
      assert NoDup(init) by {
        forall i, j | 0 <= i < j < |init|
          ensures init[i] != init[j]
        {
          assert init[i] == s[i] && init[j] == s[j];
        }
      }
      NoDupCount(init, x);
      assert s == init + [s[|s| - 1]];
      if x == s[|s| - 1] {
        assert x !in init;
      } else {
        assert x in s <==> x in init;
      }
    }
  }

  /** Two lists without repetitions that hold the same elements are permutations of each other. */
  lemma SameElements<T>(p: seq<T>, q: seq<T>)
    requires NoDup(p) && NoDup(q)
    requires forall x :: x in p <==> x in q
    ensures multiset(p) == multiset(q)
  {
    forall x
      ensures multiset(p)[x] == multiset(q)[x]
    {
      NoDupCount(p, x);
      NoDupCount(q, x);
    }
  }

  /** An element at two places of a list occurs at least twice. */
  lemma CountTwo<T>(s: seq<T>, i: nat, j: nat)
    requires i < j < |s| && s[i] == s[j]
    ensures multiset(s)[s[i]] >= 2
  {
    assert s == s[..j] + [s[j]] + s[j + 1..];
    assert s[..j][i] == s[i];
    assert s[i] in multiset(s[..j]);
  }

  /** `0, 1, ..., n - 1`. */
  function Range(n: nat): (r: seq<int>)
    ensures |r| == n
  {
    seq(n, i => i)
  }

  lemma RangeNoDup(n: nat)
    ensures NoDup(Range(n))
    ensures forall x :: x in Range(n) <==> 0 <= x < n
  {
    forall x | 0 <= x < n
      ensures x in Range(n)
    {
      assert Range(n)[x] == x;
    }
  }

  // ---------------------------------------------------------------------
  // The symbols of a tree NewBook builds
  // ---------------------------------------------------------------------

  function EntryVal(e: Entry): int
  {
    e.val
  }

  /** The leaves of a tree, left to right. */
  function LeafNodes(t: Node): seq<Node>
  {
    if t.Leaf? then [t] else LeafNodes(t.left) + LeafNodes(t.right)
  }

  lemma {:induction false} LeafNodesBag(t: Node)
    ensures multiset(LeafNodes(t)) == LeafBag(t)
  {
    if t.Pair? {
      LeafNodesBag(t.left);
      LeafNodesBag(t.right);
    }
  }

  /** The symbols of the leaf entries are those of the leaves. */
  lemma {:induction false} LeafEntryVals(t: Node, d: nat)
    ensures Map(LeafEntries(t, d), EntryVal) == Map(LeafNodes(t), Val)
  {
    if t.Leaf? {
      assert [t][..0] == [] && [Entry(t.val, d)][..0] == [];
    } else {
      LeafEntryVals(t.left, d + 1);
      LeafEntryVals(t.right, d + 1);
      MapAppend(LeafEntries(t.left, d + 1), LeafEntries(t.right, d + 1), EntryVal);
      MapAppend(LeafNodes(t.left), LeafNodes(t.right), Val);
    }
  }

  lemma SymbolVals(freq: seq<int>)
    ensures Map(Symbols(freq), Val) == Range(|freq|)
  {
    forall i | 0 <= i < |freq|
      ensures Map(Symbols(freq), Val)[i] == Range(|freq|)[i]
    {
      MapAt(Symbols(freq), Val, i);
    }
  }

  /** The walk of a tree NewBook builds lists the symbols `0 .. |freq| - 1`, each once. */
  lemma WalkVals(t: Node, freq: seq<int>, w: seq<Entry>)
    requires HuffmanOf(t, freq) && w == Walk(t, Height(t) + 1)
    ensures multiset(w) == multiset(LeafEntries(t, 0))
    ensures multiset(Map(w, EntryVal)) == multiset(Range(|freq|))
  {
    HuffmanKeeps(t, freq);
    WalkEntries(t, w, LeafEntries(t, 0));
    MapPerm(w, LeafEntries(t, 0), EntryVal);
    LeafEntryVals(t, 0);
    LeafNodesBag(t);
    MapPerm(LeafNodes(t), Symbols(freq), Val);
    SymbolVals(freq);
  }

  /** Symbol `v` is named somewhere in `w`. */
  predicate Named(w: seq<Entry>, v: int)
  {
    exists j :: 0 <= j < |w| && w[j].val == v
  }

  /** A list whose symbols are `0 .. n - 1` names each of them once. */
  lemma ValsOfRange(w: seq<Entry>, n: nat)
    requires multiset(Map(w, EntryVal)) == multiset(Range(n))
    ensures |w| == n && DistinctVals(w) && ValsBelow(w, n)
    ensures forall v :: 0 <= v < n ==> Named(w, v)
  {
    var m := Map(w, EntryVal);
    assert |w| == |m| == |multiset(m)| == |multiset(Range(n))| == n;
    RangeDistinct(w, n);
    RangeBelow(w, n);
    RangeNamed(w, n);
  }

  lemma RangeDistinct(w: seq<Entry>, n: nat)
    requires multiset(Map(w, EntryVal)) == multiset(Range(n))
    ensures DistinctVals(w)
  {
    var m := Map(w, EntryVal);
    RangeNoDup(n);
    forall i, j | 0 <= i < j < |w|
      ensures w[i].val != w[j].val
    {
      MapAt(w, EntryVal, i);
      MapAt(w, EntryVal, j);
      if m[i] == m[j] {
        CountTwo(m, i, j);
        NoDupCount(Range(n), m[i]);
        assert false;
      }
    }
  }

  lemma RangeBelow(w: seq<Entry>, n: nat)
    requires multiset(Map(w, EntryVal)) == multiset(Range(n))
    ensures ValsBelow(w, n)
  {
    var m := Map(w, EntryVal);
    RangeNoDup(n);
    forall i | 0 <= i < |w|
      ensures 0 <= w[i].val < n
    {
      MapAt(w, EntryVal, i);
      assert m[i] in multiset(Range(n));
    }
  }

  lemma RangeNamed(w: seq<Entry>, n: nat)
    requires multiset(Map(w, EntryVal)) == multiset(Range(n))
    ensures forall v :: 0 <= v < n ==> Named(w, v)
  {
    var m := Map(w, EntryVal);
    RangeNoDup(n);
    forall v | 0 <= v < n
      ensures Named(w, v)
    {
      assert v in Range(n);
      assert v in multiset(Range(n));
      assert v in multiset(m);
      var j :| 0 <= j < |m| && m[j] == v;
      MapAt(w, EntryVal, j);
    }
  }

  // ---------------------------------------------------------------------
  // Level by level, each level by symbol
  // ---------------------------------------------------------------------

  /** `a` comes no later than `b`: shallower, or as deep with a symbol no greater. */
  predicate NotAfter(a: Entry, b: Entry)
  {
    a.depth < b.depth || (a.depth == b.depth && a.val <= b.val)
  }

  /** The walk down to level `d` is ordered by depth, then symbol, and stays above `d`. */
  ghost predicate OrderedAbove(w: seq<Entry>, d: nat)
  {
    (forall i, j :: 0 <= i < j < |w| ==> NotAfter(w[i], w[j]))
    && (forall i :: 0 <= i < |w| ==> w[i].depth < d)
  }

  lemma LevelRow(t: Node, k: nat, i: nat)
    requires i < |LevelVals(t, k)|
    ensures Tag(LevelVals(t, k), k)[i] == Entry(LevelVals(t, k)[i], k)
  {
    TagAt(LevelVals(t, k), k, i);
  }

  /** Walking level `k` after the levels above it keeps the walk ordered. */
  lemma OrderedStep(t: Node, k: nat, w: seq<Entry>, w': seq<Entry>)
    requires OrderedAbove(w, k) && w == Walk(t, k) && w' == Walk(t, k + 1)
    ensures OrderedAbove(w', k + 1)
  {
    var vals := LevelVals(t, k);
    var row := Tag(vals, k);
    assert w' == w + row;
    SortBySorted(ByVal, Level(t, k));
    LeafValsAscending(SortBy(ByVal, Level(t, k)));
    forall i, j | 0 <= i < j < |w'|
      ensures NotAfter(w'[i], w'[j])
    {
      if j >= |w| {
        LevelRow(t, k, j - |w|);
        if i >= |w| {
          LevelRow(t, k, i - |w|);
        }
      }
    }
    forall i | 0 <= i < |w'|
      ensures w'[i].depth < k + 1
    {
      if i >= |w| {
        LevelRow(t, k, i - |w|);
      }
    }
  }

  /** The whole walk is ordered by depth, then symbol. */
  lemma Ordered(t: Node, d: nat)
    ensures OrderedAbove(Walk(t, d), d)
  {
    var k := 0;
    while k < d
      invariant k <= d && OrderedAbove(Walk(t, k), k)
    {
      OrderedStep(t, k, Walk(t, k), Walk(t, k + 1));
      k := k + 1;
    }
  }
}
