/**
 * What the book of huffman/huffman.go promises: every leaf's code is as
 * long as the leaf is deep, codes of one length are consecutive in
 * ascending symbol order, the first code of a longer length continues
 * from the last shorter one shifted left, and so the codes are
 * prefix-free and fill the code space exactly (Kraft equality) — the
 * canonical code of section 3.2.2 of RFC 1951.
 */
module BookProofs {
  import opened Bytes
  import opened Huffman
  import opened Canonical

  // ---------------------------------------------------------------------
  // The leaves of a tree with their depths
  // ---------------------------------------------------------------------

  /** The leaves of `t`, left to right, each with its depth when `t` sits at depth `d`. */
  function LeafEntries(t: Node, d: nat): (r: seq<Entry>)
    ensures |r| >= 1
    decreases t
  {
    if t.Leaf? then [Entry(t.val, d)] else LeafEntries(t.left, d + 1) + LeafEntries(t.right, d + 1)
  }

  /** The leaf entries of every tree in a level at depth `d`. */
  function Deep(s: seq<Node>, d: nat): seq<Entry>
  {
    if s == [] then [] else Deep(s[..|s| - 1], d) + LeafEntries(s[|s| - 1], d)
  }

  lemma {:induction false} DeepAppend(a: seq<Node>, b: seq<Node>, d: nat)
    ensures Deep(a + b, d) == Deep(a, d) + Deep(b, d)
    decreases |b|
  {
    if b == [] {
      assert a + b == a;
    } else {
      DeepAppend(a, b[..|b| - 1], d);
      assert (a + b)[..|a + b| - 1] == a + b[..|b| - 1];
    }
  }

  lemma DeepSingle(x: Node, d: nat)
    ensures Deep([x], d) == LeafEntries(x, d)
  {
    assert [x][..0] == [];
  }

  /** The children of an internal node at depth `d`, taken as a level at depth `d + 1`, hold its leaves. */
  lemma DeepChildren(x: Node, d: nat)
    requires x.Pair?
    ensures Deep(Children(x), d + 1) == LeafEntries(x, d)
  {
    assert Children(x) == [x.left] + [x.right];
    DeepAppend([x.left], [x.right], d + 1);
    DeepSingle(x.left, d + 1);
    DeepSingle(x.right, d + 1);
  }

  /** An entry of `Tag(vals, d)` is `vals`' value at depth `d`. */
  lemma {:induction false} TagAt(vals: seq<int>, d: nat, k: nat)
    requires k < |vals|
    ensures Tag(vals, d)[k] == Entry(vals[k], d)
    decreases |vals|
  {
    if k < |vals| - 1 {
      TagAt(vals[..|vals| - 1], d, k);
    }
  }

  /** How often `Tag(vals, d)` holds an entry. */
  lemma {:induction false} TagCount(vals: seq<int>, d: nat, e: Entry)
    ensures multiset(Tag(vals, d))[e] == if e.depth == d then multiset(vals)[e.val] else 0
    decreases |vals|
  {
    if vals != [] {
      var init := vals[..|vals| - 1];
      TagCount(init, d, e);
      assert vals == init + [vals[|vals| - 1]];
    }
  }

  lemma TagPerm(a: seq<int>, b: seq<int>, d: nat)
    requires multiset(a) == multiset(b)
    ensures multiset(Tag(a, d)) == multiset(Tag(b, d))
  {
    forall e: Entry
      ensures multiset(Tag(a, d))[e] == multiset(Tag(b, d))[e]
    {
      TagCount(a, d, e);
      TagCount(b, d, e);
    }
  }

  /** A level's leaves stay at depth `d`; its internal nodes pass theirs to the next level. */
  lemma {:induction false} LevelSplit(s: seq<Node>, d: nat)
    ensures multiset(Deep(s, d)) == multiset(Tag(LeafVals(s), d)) + multiset(Deep(Kids(s), d + 1))
    decreases |s|
  {
    if s != [] {
      var init := s[..|s| - 1];
      var x := s[|s| - 1];
      LevelSplit(init, d);
      DeepAppend(Kids(init), Children(x), d + 1);
      if x.Pair? {
        DeepChildren(x, d);
        assert LeafVals(s) == LeafVals(init);
      } else {
        assert LeafVals(s) == LeafVals(init) + [x.val];
        TagSnoc(LeafVals(init), x.val, d);
        assert Deep(Children(x), d + 1) == [];
      }
    }
  }

  /** The sort of a level does not change which leaves it holds. */
  lemma LevelValsPerm(t: Node, d: nat)
    ensures multiset(Tag(LevelVals(t, d), d)) == multiset(Tag(LeafVals(Level(t, d)), d))
  {
    SortByPerm(ByVal, Level(t, d));
    FlatMapPerm(SortBy(ByVal, Level(t, d)), Level(t, d), LeafVal);
    TagPerm(LevelVals(t, d), LeafVals(Level(t, d)), d);
  }

  /** The leaves that lie below the walk down to level `d`. */
  function Below(t: Node, d: nat): seq<Entry>
  {
    Deep(Level(t, d), d)
  }

  /** The walk down to level `d` and the leaves below that level are all the leaves `all` of the tree. */
  ghost predicate Split(t: Node, d: nat, all: seq<Entry>)
  {
    multiset(all) == multiset(Walk(t, d)) + multiset(Below(t, d))
  }

  lemma Telescope(t: Node, d: nat, all: seq<Entry>)
    requires all == LeafEntries(t, 0)
    ensures Split(t, d, all)
  {
    TelescopeBase(t, all);
    var k := 0;
    while k < d
      invariant k <= d && Split(t, k, all)
    {
      TelescopeStep(t, k, all);
      k := k + 1;
    }
  }

  lemma TelescopeBase(t: Node, all: seq<Entry>)
    requires all == LeafEntries(t, 0)
    ensures Split(t, 0, all)
  {
    DeepSingle(t, 0);
    NoneWalked(all, Walk(t, 0), Below(t, 0));
  }

  /** `Split` at level `k + 1`, from `Split` at level `k`. */
  lemma TelescopeStep(t: Node, k: nat, all: seq<Entry>)
    requires Split(t, k, all)
    ensures Split(t, k + 1, all)
  {
    LevelMoves(t, k, Walk(t, k), Walk(t, k + 1), Below(t, k), Below(t, k + 1));
    Transfer(all, Walk(t, k), Below(t, k), Walk(t, k + 1), Below(t, k + 1));
  }

  lemma NoneWalked<T>(a: seq<T>, w: seq<T>, c: seq<T>)
    requires w == [] && c == a
    ensures multiset(a) == multiset(w) + multiset(c)
  {
  }

  lemma Transfer<T>(all: seq<T>, w0: seq<T>, above: seq<T>, w: seq<T>, below: seq<T>)
    requires multiset(all) == multiset(w0) + multiset(above)
    requires multiset(w0) + multiset(above) == multiset(w) + multiset(below)
    ensures multiset(all) == multiset(w) + multiset(below)
  {
  }

  /** Level `k` moves its leaves from below the walk into it. */
  lemma LevelMoves(t: Node, k: nat, w0: seq<Entry>, w: seq<Entry>, above: seq<Entry>, below: seq<Entry>)
    requires w0 == Walk(t, k) && w == Walk(t, k + 1)
    requires above == Deep(Level(t, k), k) && below == Deep(Level(t, k + 1), k + 1)
    ensures multiset(w0) + multiset(above) == multiset(w) + multiset(below)
  {
    var row := Tag(LevelVals(t, k), k);
    assert w == w0 + row;
    LevelSplit(Level(t, k), k);
    LevelValsPerm(t, k);
    Shuffle(w0, above, Tag(LeafVals(Level(t, k)), k), below, row, w);
  }

  lemma Shuffle<T>(w0: seq<T>, above: seq<T>, leaves: seq<T>, below: seq<T>, row: seq<T>, w: seq<T>)
    requires multiset(above) == multiset(leaves) + multiset(below)
    requires multiset(row) == multiset(leaves) && w == w0 + row
    ensures multiset(w0) + multiset(above) == multiset(w) + multiset(below)
  {
  }

  /** The complete walk `w` visits every leaf `all` of the tree once, at its depth. */
  lemma WalkEntries(t: Node, w: seq<Entry>, all: seq<Entry>)
    requires w == Walk(t, Height(t) + 1) && all == LeafEntries(t, 0)
    ensures multiset(w) == multiset(all)
  {
    WalkEntriesBeyond(t, Height(t) + 1, w, all);
  }

  lemma WalkEntriesBeyond(t: Node, d: nat, w: seq<Entry>, all: seq<Entry>)
    requires d > Height(t) && w == Walk(t, d) && all == LeafEntries(t, 0)
    ensures multiset(w) == multiset(all)
  {
    Telescope(t, d, all);
    LevelBeyond(t, d);
    SplitDone(t, d, w, all);
  }

  lemma SplitDone(t: Node, d: nat, w: seq<Entry>, all: seq<Entry>)
    requires Split(t, d, all) && Level(t, d) == [] && w == Walk(t, d)
    ensures multiset(w) == multiset(all)
  {
    assert Below(t, d) == [];
  }

  // ---------------------------------------------------------------------
  // Kraft sums
  // ---------------------------------------------------------------------

  /** The share of a code space of `2^D` words that a code of length `e.depth` takes. */
  function Weight(e: Entry, D: nat): nat
  {
    if e.depth <= D then Pow2(D - e.depth) else 0
  }

  /** The Kraft sum of a list of code lengths, scaled by `2^D`. */
  function Kraft(es: seq<Entry>, D: nat): nat
  {
    if es == [] then 0 else Kraft(es[..|es| - 1], D) + Weight(es[|es| - 1], D)
  }

  lemma {:induction false} KraftAppend(a: seq<Entry>, b: seq<Entry>, D: nat)
    ensures Kraft(a + b, D) == Kraft(a, D) + Kraft(b, D)
    decreases |b|
  {
    if b == [] {
      assert a + b == a;
    } else {
      KraftAppend(a, b[..|b| - 1], D);
      assert (a + b)[..|a + b| - 1] == a + b[..|b| - 1];
    }
  }

  lemma KraftRemove(q: seq<Entry>, j: nat, D: nat)
    requires j < |q|
    ensures Kraft(q, D) == Weight(q[j], D) + Kraft(q[..j] + q[j + 1..], D)
  {
    assert q == q[..j] + [q[j]] + q[j + 1..];
    KraftAppend(q[..j] + [q[j]], q[j + 1..], D);
    KraftAppend(q[..j], [q[j]], D);
    KraftAppend(q[..j], q[j + 1..], D);
    assert [q[j]][..0] == [];
  }

  /** The Kraft sum does not depend on the order of the codes. */
  lemma {:induction false} KraftPerm(p: seq<Entry>, q: seq<Entry>, D: nat)
    requires multiset(p) == multiset(q)
    ensures Kraft(p, D) == Kraft(q, D)
    decreases |p|
  {
    if p == [] {
      assert |q| == |multiset(q)| == 0;
    } else {
      assert p[0] in multiset(q);
      var j :| 0 <= j < |q| && q[j] == p[0];
      RemoveMatch(p, q, j);
      KraftPerm(p[1..], q[..j] + q[j + 1..], D);
      KraftRemove(q, j, D);
      KraftRemove(p, 0, D);
      assert p[..0] + p[1..] == p[1..];
    }
  }

  /** A full binary tree at depth `d` fills exactly its share of the code space. */
  lemma {:induction false} KraftTree(t: Node, d: nat, D: nat)
    requires d + Height(t) <= D
    ensures Kraft(LeafEntries(t, d), D) == Pow2(D - d)
    decreases t
  {
    if t.Leaf? {
      assert LeafEntries(t, d) == [] + [Entry(t.val, d)];
    } else {
      KraftTree(t.left, d + 1, D);
      KraftTree(t.right, d + 1, D);
      KraftAppend(LeafEntries(t.left, d + 1), LeafEntries(t.right, d + 1), D);
    }
  }

  /** Kraft equality for the walk: its code lengths fill the space of `2^Height(t)` words exactly. */
  lemma KraftWalk(t: Node, w: seq<Entry>)
    requires w == Walk(t, Height(t) + 1)
    ensures Kraft(w, Height(t)) == Pow2(Height(t))
  {
    WalkEntries(t, w, LeafEntries(t, 0));
    KraftLeaves(t, w, LeafEntries(t, 0));
  }

  lemma KraftLeaves(t: Node, w: seq<Entry>, all: seq<Entry>)
    requires all == LeafEntries(t, 0) && multiset(w) == multiset(all)
    ensures Kraft(w, Height(t)) == Pow2(Height(t))
  {
    KraftPerm(w, all, Height(t));
    KraftTree(t, 0, Height(t));
  }
}
