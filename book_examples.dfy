/**
 * The two books of huffman/huffman_test.go. With frequencies that are all
 * different, `sort.Sort` can order the leaves one way only, so `NewBook`
 * has one possible tree and one possible book; the test compares the code
 * lengths, and the lemmas here give the whole codes.
 */
module BookExamples {
  import opened Bytes
  import opened Huffman
  import opened Canonical

  /** No two nodes of `s` share a key. */
  predicate KeysDistinct(o: Order, s: seq<Node>)
  {
    forall i, j :: 0 <= i < j < |s| ==> Key(o, s[i]) != Key(o, s[j])
  }

  /** Two orders of the same nodes, both sorted by keys that are all different, are the same order. */
  lemma {:induction false} SortedSame(o: Order, p: seq<Node>, q: seq<Node>)
    requires SortedBy(o, p) && SortedBy(o, q) && multiset(p) == multiset(q) && KeysDistinct(o, p)
    ensures p == q
    decreases |p|
  {
    assert |p| == |multiset(p)| == |multiset(q)| == |q|;
    if p != [] {
      SameHead(o, p, q);
      DropFirst(p);
      DropFirst(q);
      Tail(o, p);
      Tail(o, q);
      SortedSame(o, p[1..], q[1..]);
      assert p == [p[0]] + p[1..] && q == [q[0]] + q[1..];
    }
  }

  /** Both orders start with the node of the least key. */
  lemma SameHead(o: Order, p: seq<Node>, q: seq<Node>)
    requires SortedBy(o, p) && SortedBy(o, q) && multiset(p) == multiset(q) && KeysDistinct(o, p)
    requires |p| >= 1 && |q| >= 1
    ensures p[0] == q[0]
  {
    assert p[0] in multiset(q) && q[0] in multiset(p);
    var k :| 0 <= k < |q| && q[k] == p[0];
    var m :| 0 <= m < |p| && p[m] == q[0];
    assert Key(o, p[0]) <= Key(o, p[m]) == Key(o, q[0]) <= Key(o, q[k]) == Key(o, p[0]);
  }

  lemma DropFirst(p: seq<Node>)
    requires |p| >= 1
    ensures multiset(p[1..]) == multiset(p) - multiset{p[0]}
  {
    assert p == [p[0]] + p[1..];
  }

  lemma Tail(o: Order, p: seq<Node>)
    requires |p| >= 1 && SortedBy(o, p)
    ensures SortedBy(o, p[1..]) && (KeysDistinct(o, p) ==> KeysDistinct(o, p[1..]))
  {
    forall i, j | 0 <= i < j < |p| - 1
      ensures Key(o, p[1..][i]) <= Key(o, p[1..][j])
      ensures KeysDistinct(o, p) ==> Key(o, p[1..][i]) != Key(o, p[1..][j])
    {
      assert p[1..][i] == p[i + 1] && p[1..][j] == p[j + 1];
    }
  }

  /** The only order `sort.Sort` can leave the leaves of `freq` in, when that is `order`. */
  lemma OnlyOrder(t: Node, freq: seq<int>, order: seq<Node>)
    requires HuffmanOf(t, freq)
    requires SortedBy(ByFreq, order) && multiset(order) == multiset(Symbols(freq)) && KeysDistinct(ByFreq, order)
    ensures |order| >= 1 && t == Build(order)
  {
    var sorted :| |sorted| >= 1 && SortedBy(ByFreq, sorted) && multiset(sorted) == multiset(Symbols(freq))
      && t == Build(sorted);
    SortedSame(ByFreq, order, sorted);
  }

  /** `{10, 5, 2, 1}` gets the lengths `{1, 2, 3, 3}` and the codes `0`, `10`, `110`, `111`. */
  lemma FirstBook(t: Node)
    requires HuffmanOf(t, [10, 5, 2, 1])
    ensures BookOf(t, 4) == Book([Code(0, 1), Code(2, 2), Code(6, 3), Code(7, 3)])
  {
    var order := [Leaf(3, 1), Leaf(2, 2), Leaf(1, 5), Leaf(0, 10)];
    FirstOrder([10, 5, 2, 1], order);
    OnlyOrder(t, [10, 5, 2, 1], order);
    var tree := Pair(18, Pair(8, Pair(3, Leaf(3, 1), Leaf(2, 2)), Leaf(1, 5)), Leaf(0, 10));
    FirstTree(order, tree);
    FirstWalk(tree);
    FirstRun([Entry(0, 1), Entry(1, 2), Entry(2, 3), Entry(3, 3)]);
  }

  lemma FirstOrder(freq: seq<int>, order: seq<Node>)
    requires freq == [10, 5, 2, 1] && order == [Leaf(3, 1), Leaf(2, 2), Leaf(1, 5), Leaf(0, 10)]
    ensures SortedBy(ByFreq, order) && multiset(order) == multiset(Symbols(freq)) && KeysDistinct(ByFreq, order)
  {
    FirstSorted(order);
    FirstSymbols(freq);
    Reversed4(Leaf(0, 10), Leaf(1, 5), Leaf(2, 2), Leaf(3, 1));
  }

  lemma FirstSorted(order: seq<Node>)
    requires order == [Leaf(3, 1), Leaf(2, 2), Leaf(1, 5), Leaf(0, 10)]
    ensures SortedBy(ByFreq, order) && KeysDistinct(ByFreq, order)
  {
    forall i, j | 0 <= i < j < |order|
      ensures Key(ByFreq, order[i]) < Key(ByFreq, order[j])
    {
      assert forall k :: 0 <= k < 3 ==> order[k].freq < order[k + 1].freq;
    }
  }

  lemma FirstSymbols(freq: seq<int>)
    requires freq == [10, 5, 2, 1]
    ensures Symbols(freq) == [Leaf(0, 10), Leaf(1, 5), Leaf(2, 2), Leaf(3, 1)]
  {
  }

  lemma Reversed4<T>(a: T, b: T, c: T, d: T)
    ensures multiset([d, c, b, a]) == multiset([a, b, c, d])
  {
    Singles4(a, b, c, d);
    assert multiset([d] + [c] + [b] + [a]) == multiset([a] + [b] + [c] + [d]);
  }

  lemma Singles4<T>(a: T, b: T, c: T, d: T)
    ensures [d] + [c] + [b] + [a] == [d, c, b, a] && [a] + [b] + [c] + [d] == [a, b, c, d]
  {
  }

  lemma FirstRun(w: seq<Entry>)
    requires w == [Entry(0, 1), Entry(1, 2), Entry(2, 3), Entry(3, 3)]
    ensures Run(w, Init(4)).codes == [Code(0, 1), Code(2, 2), Code(6, 3), Code(7, 3)]
  {
    var z := Code(0, 0);
    assert Init(4) == State(0xFFFF_FFFF, 0, [z, z, z, z]);
    assert w[..0] == [];
    assert w[..1][..0] == [];
    assert w[..2][..1] == w[..1] && w[..3][..2] == w[..2] && w[..4][..3] == w[..3] && w[..4] == w;
    assert Run(w[..1], Init(4)) == State(0, 1, [Code(0, 1), z, z, z]);
    assert Run(w[..2], Init(4)) == State(2, 2, [Code(0, 1), Code(2, 2), z, z]);
    assert Run(w[..3], Init(4)) == State(6, 3, [Code(0, 1), Code(2, 2), Code(6, 3), z]);
  }

  lemma FirstTree(order: seq<Node>, tree: Node)
    requires order == [Leaf(3, 1), Leaf(2, 2), Leaf(1, 5), Leaf(0, 10)]
    requires tree == Pair(18, Pair(8, Pair(3, Leaf(3, 1), Leaf(2, 2)), Leaf(1, 5)), Leaf(0, 10))
    ensures Build(order) == tree
  {
    var s1 := [Pair(3, Leaf(3, 1), Leaf(2, 2)), Leaf(1, 5), Leaf(0, 10)];
    var s2 := [Pair(8, Pair(3, Leaf(3, 1), Leaf(2, 2)), Leaf(1, 5)), Leaf(0, 10)];
    assert Step(order) == s1;
    assert Step(s1) == s2;
    assert Step(s2) == [tree];
  }

  lemma FirstWalk(tree: Node)
    requires tree == Pair(18, Pair(8, Pair(3, Leaf(3, 1), Leaf(2, 2)), Leaf(1, 5)), Leaf(0, 10))
    ensures Height(tree) == 3
    ensures Walk(tree, 4) == [Entry(0, 1), Entry(1, 2), Entry(2, 3), Entry(3, 3)]
  {
    var p3 := Pair(3, Leaf(3, 1), Leaf(2, 2));
    var p8 := Pair(8, p3, Leaf(1, 5));
    FirstLevels(tree, p8, p3);
    RootVals(tree);
    FirstVals(tree, p8, p3);
    WalkFour(tree);
  }

  /** The leaf values of the first test's levels, each level in order of value. */
  lemma FirstVals(t: Node, p8: Node, p3: Node)
    requires p3 == Pair(3, Leaf(3, 1), Leaf(2, 2)) && p8 == Pair(8, p3, Leaf(1, 5))
    requires Level(t, 1) == [p8, Leaf(0, 10)] && Level(t, 2) == [p3, Leaf(1, 5)]
    requires Level(t, 3) == [Leaf(3, 1), Leaf(2, 2)]
    ensures LevelVals(t, 1) == [0] && LevelVals(t, 2) == [1] && LevelVals(t, 3) == [2, 3]
  {
    PairLevelVals(t, 1, p8, Leaf(0, 10), [0]);
    PairLevelVals(t, 2, p3, Leaf(1, 5), [1]);
    PairLevelVals(t, 3, Leaf(3, 1), Leaf(2, 2), [2, 3]);
  }

  /** The levels of the first test's tree, top to bottom. */
  lemma FirstLevels(tree: Node, p8: Node, p3: Node)
    requires p3 == Pair(3, Leaf(3, 1), Leaf(2, 2)) && p8 == Pair(8, p3, Leaf(1, 5))
    requires tree == Pair(18, p8, Leaf(0, 10))
    ensures Level(tree, 1) == [p8, Leaf(0, 10)]
    ensures Level(tree, 2) == [p3, Leaf(1, 5)]
    ensures Level(tree, 3) == [Leaf(3, 1), Leaf(2, 2)]
    ensures Height(tree) == 3
  {
    FlatMapSingle(tree, Children);
    PairKids(p8, Leaf(0, 10));
    PairKids(p3, Leaf(1, 5));
  }

  /** The walk of a tree of height 3 whose levels hold the leaves of the first test. */
  lemma WalkFour(t: Node)
    requires LevelVals(t, 0) == [] && LevelVals(t, 1) == [0] && LevelVals(t, 2) == [1] && LevelVals(t, 3) == [2, 3]
    ensures Walk(t, 4) == [Entry(0, 1), Entry(1, 2), Entry(2, 3), Entry(3, 3)]
  {
    TagOne(0, 1);
    TagOne(1, 2);
    TagTwo(2, 3, 3);
    assert Walk(t, 1) == [];
    assert Walk(t, 2) == [Entry(0, 1)];
    assert Walk(t, 3) == [Entry(0, 1), Entry(1, 2)];
  }

  /** `{1000, 6, 5, 10, 1}` gets the lengths `{1, 3, 4, 2, 4}` and the codes `0`, `110`, `1110`, `10`, `1111`. */
  lemma SecondBook(t: Node)
    requires HuffmanOf(t, [1000, 6, 5, 10, 1])
    ensures BookOf(t, 5) == Book([Code(0, 1), Code(6, 3), Code(14, 4), Code(2, 2), Code(15, 4)])
  {
    var order := [Leaf(4, 1), Leaf(2, 5), Leaf(1, 6), Leaf(3, 10), Leaf(0, 1000)];
    SecondOrder([1000, 6, 5, 10, 1], order);
    OnlyOrder(t, [1000, 6, 5, 10, 1], order);
    var tree := Pair(1022, Pair(22, Leaf(3, 10), Pair(12, Pair(6, Leaf(4, 1), Leaf(2, 5)), Leaf(1, 6))), Leaf(0, 1000));
    SecondTree(order, tree);
    SecondWalk(tree);
    SecondRun([Entry(0, 1), Entry(3, 2), Entry(1, 3), Entry(2, 4), Entry(4, 4)]);
  }

  lemma SecondOrder(freq: seq<int>, order: seq<Node>)
    requires freq == [1000, 6, 5, 10, 1]
    requires order == [Leaf(4, 1), Leaf(2, 5), Leaf(1, 6), Leaf(3, 10), Leaf(0, 1000)]
    ensures SortedBy(ByFreq, order) && multiset(order) == multiset(Symbols(freq)) && KeysDistinct(ByFreq, order)
  {
    SecondSorted(order);
    SecondBag(freq, order);
  }

  lemma SecondSorted(order: seq<Node>)
    requires order == [Leaf(4, 1), Leaf(2, 5), Leaf(1, 6), Leaf(3, 10), Leaf(0, 1000)]
    ensures SortedBy(ByFreq, order) && KeysDistinct(ByFreq, order)
  {
    forall i, j | 0 <= i < j < |order|
      ensures Key(ByFreq, order[i]) < Key(ByFreq, order[j])
    {
      assert forall k :: 0 <= k < 4 ==> order[k].freq < order[k + 1].freq;
    }
  }

  lemma SecondBag(freq: seq<int>, order: seq<Node>)
    requires freq == [1000, 6, 5, 10, 1]
    requires order == [Leaf(4, 1), Leaf(2, 5), Leaf(1, 6), Leaf(3, 10), Leaf(0, 1000)]
    ensures multiset(order) == multiset(Symbols(freq))
  {
    SecondSymbols(freq);
    Shuffled5(Leaf(0, 1000), Leaf(1, 6), Leaf(2, 5), Leaf(3, 10), Leaf(4, 1));
  }

  lemma SecondSymbols(freq: seq<int>)
    requires freq == [1000, 6, 5, 10, 1]
    ensures Symbols(freq) == [Leaf(0, 1000), Leaf(1, 6), Leaf(2, 5), Leaf(3, 10), Leaf(4, 1)]
  {
  }

  lemma Shuffled5<T>(a: T, b: T, c: T, d: T, e: T)
    ensures multiset([e, c, b, d, a]) == multiset([a, b, c, d, e])
  {
    Singles5(a, b, c, d, e);
    assert multiset([e] + [c] + [b] + [d] + [a]) == multiset([a] + [b] + [c] + [d] + [e]);
  }

  lemma Singles5<T>(a: T, b: T, c: T, d: T, e: T)
    ensures [e] + [c] + [b] + [d] + [a] == [e, c, b, d, a] && [a] + [b] + [c] + [d] + [e] == [a, b, c, d, e]
  {
  }

  /** The fourth case of the `switch`: the combined node of frequency 12 goes after the 10. */
  lemma SecondTree(order: seq<Node>, tree: Node)
    requires order == [Leaf(4, 1), Leaf(2, 5), Leaf(1, 6), Leaf(3, 10), Leaf(0, 1000)]
    requires tree == Pair(1022, Pair(22, Leaf(3, 10), Pair(12, Pair(6, Leaf(4, 1), Leaf(2, 5)), Leaf(1, 6))), Leaf(0, 1000))
    ensures Build(order) == tree
  {
    var p6 := Pair(6, Leaf(4, 1), Leaf(2, 5));
    var p12 := Pair(12, p6, Leaf(1, 6));
    var s1 := [p6, Leaf(1, 6), Leaf(3, 10), Leaf(0, 1000)];
    var s2 := [Leaf(3, 10), p12, Leaf(0, 1000)];
    var s3 := [Pair(22, Leaf(3, 10), p12), Leaf(0, 1000)];
    assert Step(order) == s1;
    assert LastAtMost(s1, 12, 2) == 2;
    assert SearchIndex(s1, 12) == LastAtMost(s1, 12, 3) == 2;
    assert Step(s1) == s2;
    assert Step(s2) == s3;
    assert Step(s3) == [tree];
    assert Build(s3) == tree;
    assert Build(s2) == tree;
  }

  lemma SecondWalk(tree: Node)
    requires tree == Pair(1022, Pair(22, Leaf(3, 10), Pair(12, Pair(6, Leaf(4, 1), Leaf(2, 5)), Leaf(1, 6))), Leaf(0, 1000))
    ensures Height(tree) == 4
    ensures Walk(tree, 5) == [Entry(0, 1), Entry(3, 2), Entry(1, 3), Entry(2, 4), Entry(4, 4)]
  {
    var p6 := Pair(6, Leaf(4, 1), Leaf(2, 5));
    var p12 := Pair(12, p6, Leaf(1, 6));
    var p22 := Pair(22, Leaf(3, 10), p12);
    SecondLevels(tree, p22, p12, p6);
    RootVals(tree);
    SecondVals(tree, p22, p12, p6);
    WalkFive(tree);
  }

  /** The leaf values of the second test's levels, each level in order of value. */
  lemma SecondVals(t: Node, p22: Node, p12: Node, p6: Node)
    requires p6 == Pair(6, Leaf(4, 1), Leaf(2, 5)) && p12 == Pair(12, p6, Leaf(1, 6))
    requires p22 == Pair(22, Leaf(3, 10), p12)
    requires Level(t, 1) == [p22, Leaf(0, 1000)] && Level(t, 2) == [Leaf(3, 10), p12]
    requires Level(t, 3) == [p6, Leaf(1, 6)] && Level(t, 4) == [Leaf(4, 1), Leaf(2, 5)]
    ensures LevelVals(t, 1) == [0] && LevelVals(t, 2) == [3] && LevelVals(t, 3) == [1] && LevelVals(t, 4) == [2, 4]
  {
    PairLevelVals(t, 1, p22, Leaf(0, 1000), [0]);
    PairLevelVals(t, 2, Leaf(3, 10), p12, [3]);
    PairLevelVals(t, 3, p6, Leaf(1, 6), [1]);
    PairLevelVals(t, 4, Leaf(4, 1), Leaf(2, 5), [2, 4]);
  }

  /** The walk of a tree of height 4 whose levels hold the leaves of the second test. */
  lemma WalkFive(t: Node)
    requires LevelVals(t, 0) == [] && LevelVals(t, 1) == [0] && LevelVals(t, 2) == [3]
    requires LevelVals(t, 3) == [1] && LevelVals(t, 4) == [2, 4]
    ensures Walk(t, 5) == [Entry(0, 1), Entry(3, 2), Entry(1, 3), Entry(2, 4), Entry(4, 4)]
  {
    TagOne(0, 1);
    TagOne(3, 2);
    TagOne(1, 3);
    TagTwo(2, 4, 4);
    assert Walk(t, 1) == [];
    assert Walk(t, 2) == [Entry(0, 1)];
    assert Walk(t, 3) == [Entry(0, 1), Entry(3, 2)];
    assert Walk(t, 4) == [Entry(0, 1), Entry(3, 2), Entry(1, 3)];
  }

  /** The root level of a tree with children holds no leaf. */
  lemma RootVals(t: Node)
    requires t.Pair?
    ensures LevelVals(t, 0) == []
  {
    assert Level(t, 0) == [t];
    assert [t][1..] == [];
    assert SortBy(ByVal, [t]) == [t];
    FlatMapSingle(t, LeafVal);
  }

  /** A level of two nodes, put in order of value, and its leaf values. */
  lemma PairLevelVals(t: Node, d: nat, x: Node, y: Node, vals: seq<int>)
    requires Level(t, d) == [x, y]
    requires vals == if Val(x) <= Val(y) then LeafVal(x) + LeafVal(y) else LeafVal(y) + LeafVal(x)
    ensures LevelVals(t, d) == vals
  {
    SortPair(x, y);
    FlatMapPair(x, y, LeafVal);
    FlatMapPair(y, x, LeafVal);
  }

  lemma SortPair(x: Node, y: Node)
    ensures SortBy(ByVal, [x, y]) == if Val(x) <= Val(y) then [x, y] else [y, x]
  {
    assert [x, y][1..] == [y] && [y][1..] == [];
    assert SortBy(ByVal, [y]) == [y];
    assert SortBy(ByVal, [x, y]) == InsertBy(ByVal, x, [y]);
    assert InsertBy(ByVal, x, []) == [x];
  }

  lemma FlatMapPair<T>(x: Node, y: Node, f: Node -> seq<T>)
    ensures FlatMap([x, y], f) == f(x) + f(y)
  {
    FlatMapAppend([x], [y], f);
    FlatMapSingle(x, f);
    FlatMapSingle(y, f);
    assert [x] + [y] == [x, y];
  }

  /** The levels of the second test's tree, top to bottom. */
  lemma SecondLevels(tree: Node, p22: Node, p12: Node, p6: Node)
    requires p6 == Pair(6, Leaf(4, 1), Leaf(2, 5)) && p12 == Pair(12, p6, Leaf(1, 6))
    requires p22 == Pair(22, Leaf(3, 10), p12) && tree == Pair(1022, p22, Leaf(0, 1000))
    ensures Level(tree, 1) == [p22, Leaf(0, 1000)]
    ensures Level(tree, 2) == [Leaf(3, 10), p12]
    ensures Level(tree, 3) == [p6, Leaf(1, 6)]
    ensures Level(tree, 4) == [Leaf(4, 1), Leaf(2, 5)]
    ensures Height(tree) == 4
  {
    FlatMapSingle(tree, Children);
    assert Level(tree, 1) == [p22, Leaf(0, 1000)];
    PairKids(p22, Leaf(0, 1000));
    assert Level(tree, 2) == [Leaf(3, 10), p12];
    PairKids(Leaf(3, 10), p12);
    assert Level(tree, 3) == [p6, Leaf(1, 6)];
    PairKids(p6, Leaf(1, 6));
  }

  lemma PairKids(x: Node, y: Node)
    ensures Kids([x, y]) == Children(x) + Children(y)
  {
    FlatMapPair(x, y, Children);
  }

  lemma TagOne(v: int, d: nat)
    ensures Tag([v], d) == [Entry(v, d)]
  {
    assert [v][..0] == [];
  }

  lemma TagTwo(u: int, v: int, d: nat)
    ensures Tag([u, v], d) == [Entry(u, d), Entry(v, d)]
  {
    assert [u, v][..1] == [u] && [u][..0] == [];
  }

  lemma SecondRun(w: seq<Entry>)
    requires w == [Entry(0, 1), Entry(3, 2), Entry(1, 3), Entry(2, 4), Entry(4, 4)]
    ensures Run(w, Init(5)).codes == [Code(0, 1), Code(6, 3), Code(14, 4), Code(2, 2), Code(15, 4)]
  {
    var z := Code(0, 0);
    assert Init(5) == State(0xFFFF_FFFF, 0, [z, z, z, z, z]);
    assert w[..0] == [];
    assert w[..1][..0] == [];
    assert w[..2][..1] == w[..1] && w[..3][..2] == w[..2] && w[..4][..3] == w[..3];
    assert w[..5][..4] == w[..4] && w[..5] == w;
    assert Run(w[..1], Init(5)) == State(0, 1, [Code(0, 1), z, z, z, z]);
    assert Run(w[..2], Init(5)) == State(2, 2, [Code(0, 1), z, z, Code(2, 2), z]);
    assert Run(w[..3], Init(5)) == State(6, 3, [Code(0, 1), Code(6, 3), z, Code(2, 2), z]);
    assert Run(w[..4], Init(5)) == State(14, 4, [Code(0, 1), Code(6, 3), Code(14, 4), Code(2, 2), z]);
  }

  /** A single symbol is a leaf at the root: its code is empty, of length 0. */
  lemma SingleBook(t: Node, f: int)
    requires HuffmanOf(t, [f])
    ensures BookOf(t, 1) == Book([Code(0, 0)])
  {
    var sorted :| |sorted| >= 1 && SortedBy(ByFreq, sorted) && multiset(sorted) == multiset(Symbols([f]))
      && t == Build(sorted);
    assert Symbols([f]) == [Leaf(0, f)];
    assert |sorted| == |multiset(sorted)| == 1;
    assert sorted[0] in multiset(sorted);
    assert sorted == [Leaf(0, f)];
    SingleWalk(t, f);
  }

  lemma SingleWalk(t: Node, f: int)
    requires t == Leaf(0, f)
    ensures Height(t) == 0 && Walk(t, 1) == [Entry(0, 0)]
    ensures Run([Entry(0, 0)], Init(1)).codes == [Code(0, 0)]
  {
    assert SortBy(ByVal, [t]) == [t];
    FlatMapSingle(t, LeafVal);
    assert LevelVals(t, 0) == [0];
    assert Tag([0], 0) == [Entry(0, 0)] by {
      assert [0][..0] == [];
    }
    assert [Entry(0, 0)][..0] == [];
  }
}
