/**
 * Code assignment of huffman/huffman.go: `genBookFromTree` walks the
 * tree level by level, each level sorted by symbol value, and hands out
 * consecutive code values, shifting left whenever it moves to a deeper
 * level; `NewBook` builds the tree and then the book.
 */
module Canonical {
  import opened Bytes
  import opened Huffman

  /** `Code`: a code word of `bits` bits; `val` holds them, most significant first. */
  datatype Code = Code(val: uint32, bits: byte)

  /** `Book`: the code of each symbol, indexed by symbol. */
  datatype Book = Book(codes: seq<Code>)

  // ---------------------------------------------------------------------
  // Lists built node by node
  // ---------------------------------------------------------------------

  /** The concatenation of `f(x)` over the nodes `x` of `s`, in order. */
  function FlatMap<T>(s: seq<Node>, f: Node -> seq<T>): seq<T>
  {
    if s == [] then [] else FlatMap(s[..|s| - 1], f) + f(s[|s| - 1])
  }

  lemma {:induction false} FlatMapAppend<T>(a: seq<Node>, b: seq<Node>, f: Node -> seq<T>)
    ensures FlatMap(a + b, f) == FlatMap(a, f) + FlatMap(b, f)
    decreases |b|
  {
    if b == [] {
      assert a + b == a;
    } else {
      FlatMapAppend(a, b[..|b| - 1], f);
      assert (a + b)[..|a + b| - 1] == a + b[..|b| - 1];
    }
  }

  lemma FlatMapCons<T>(x: Node, r: seq<Node>, f: Node -> seq<T>)
    ensures FlatMap([x] + r, f) == f(x) + FlatMap(r, f)
  {
    FlatMapAppend([x], r, f);
    assert [x][..0] == [];
  }

  lemma FlatMapSingle<T>(x: Node, f: Node -> seq<T>)
    ensures FlatMap([x], f) == f(x)
  {
    assert [x][..0] == [];
  }

  lemma FlatMapRemove<T>(q: seq<Node>, j: nat, f: Node -> seq<T>)
    requires j < |q|
    ensures multiset(FlatMap(q, f)) == multiset(f(q[j])) + multiset(FlatMap(q[..j] + q[j + 1..], f))
  {
    assert q[..j] + q[j..] == q;
    FlatMapAppend(q[..j], q[j..], f);
    assert q[j..] == [q[j]] + q[j + 1..];
    FlatMapCons(q[j], q[j + 1..], f);
    FlatMapAppend(q[..j], q[j + 1..], f);
  }

  /** Reordering the nodes reorders what they contribute. */
  lemma {:induction false} FlatMapPerm<T>(p: seq<Node>, q: seq<Node>, f: Node -> seq<T>)
    requires multiset(p) == multiset(q)
    ensures multiset(FlatMap(p, f)) == multiset(FlatMap(q, f))
    decreases |p|
  {
    if p == [] {
      assert |q| == |multiset(q)| == 0;
    } else {
      assert p[0] in multiset(q);
      var j :| 0 <= j < |q| && q[j] == p[0];
      RemoveMatch(p, q, j);
      FlatMapPerm(p[1..], q[..j] + q[j + 1..], f);
      FlatMapRemove(q, j, f);
      assert p == [p[0]] + p[1..];
      FlatMapCons(p[0], p[1..], f);
    }
  }

  /** Whatever FlatMap yields comes from one of the nodes. */
  lemma {:induction false} FlatMapIn<T>(s: seq<Node>, f: Node -> seq<T>, y: T)
    requires y in FlatMap(s, f)
    ensures exists k :: 0 <= k < |s| && y in f(s[k])
    decreases |s|
  {
    var init := s[..|s| - 1];
    if y !in f(s[|s| - 1]) {
      assert y in FlatMap(init, f);
      FlatMapIn(init, f, y);
      var k :| 0 <= k < |init| && y in f(init[k]);
      assert init[k] == s[k];
    }
  }

  // ---------------------------------------------------------------------
  // Levels of a tree
  // ---------------------------------------------------------------------

  function Children(n: Node): seq<Node>
  {
    if n.Pair? then [n.left, n.right] else []
  }

  /** The value of a leaf, or nothing for an internal node. */
  function LeafVal(n: Node): seq<int>
  {
    if n.Leaf? then [n.val] else []
  }

  /** The children of the internal nodes of one level, in order: the next level. */
  function Kids(s: seq<Node>): seq<Node>
  {
    FlatMap(s, Children)
  }

  /** The values of the leaves of a level, in order. */
  function LeafVals(s: seq<Node>): seq<int>
  {
    FlatMap(s, LeafVal)
  }

  /** The nodes at depth `d`, left to right. */
  function Level(t: Node, d: nat): seq<Node>
  {
    if d == 0 then [t] else Kids(Level(t, d - 1))
  }

  /** The depth of the deepest leaf. */
  function Height(t: Node): nat
  {
    if t.Leaf? then 0
    else if Height(t.left) >= Height(t.right) then 1 + Height(t.left)
    else 1 + Height(t.right)
  }

  /** Level `d + 1` of an internal node is level `d` of its left child, then of its right child. */
  lemma {:induction false} LevelPair(t: Node, d: nat)
    requires t.Pair?
    ensures Level(t, d + 1) == Level(t.left, d) + Level(t.right, d)
  {
    if d == 0 {
      FlatMapSingle(t, Children);
    } else {
      LevelPair(t, d - 1);
      FlatMapAppend(Level(t.left, d - 1), Level(t.right, d - 1), Children);
    }
  }

  /** No node lies deeper than the height. */
  lemma {:induction false} LevelBeyond(t: Node, d: nat)
    requires d > Height(t)
    ensures Level(t, d) == []
  {
    if t.Leaf? {
      if d == 1 {
        FlatMapSingle(t, Children);
      } else {
        LevelBeyond(t, d - 1);
      }
    } else {
      LevelPair(t, d - 1);
      LevelBeyond(t.left, d - 1);
      LevelBeyond(t.right, d - 1);
    }
  }

  /** Every level down to the height holds a node: the deepest leaf lies at depth `Height(t)`. */
  lemma {:induction false} LevelNonEmpty(t: Node, d: nat)
    requires d <= Height(t)
    ensures Level(t, d) != []
    decreases t
  {
    if d > 0 {
      LevelPair(t, d - 1);
      if Height(t.left) >= Height(t.right) {
        LevelNonEmpty(t.left, d - 1);
      } else {
        LevelNonEmpty(t.right, d - 1);
      }
    }
  }

  /** Every leaf value lies in `[0, n)`: `genBookFromTree` indexes the book with it. */
  predicate ValsIn(t: Node, n: nat)
  {
    if t.Leaf? then 0 <= t.val < n else ValsIn(t.left, n) && ValsIn(t.right, n)
  }

  lemma {:induction false} LevelValsIn(t: Node, n: nat, d: nat)
    requires ValsIn(t, n)
    ensures forall x :: x in Level(t, d) ==> ValsIn(x, n)
  {
    if d > 0 {
      LevelValsIn(t, n, d - 1);
      forall x | x in Level(t, d)
        ensures ValsIn(x, n)
      {
        FlatMapIn(Level(t, d - 1), Children, x);
        var k :| 0 <= k < |Level(t, d - 1)| && x in Children(Level(t, d - 1)[k]);
        assert Level(t, d - 1)[k] in Level(t, d - 1);
      }
    }
  }

  // ---------------------------------------------------------------------
  // Sorted symbol values
  // ---------------------------------------------------------------------

  predicate Ascending(v: seq<int>)
  {
    forall i, j :: 0 <= i < j < |v| ==> v[i] <= v[j]
  }

  /** The leaves of a level sorted `byVal` come in ascending order of value. */
  lemma {:induction false} LeafValsAscending(s: seq<Node>)
    requires SortedBy(ByVal, s)
    ensures Ascending(LeafVals(s))
    decreases |s|
  {
    if s != [] {
      var init := s[..|s| - 1];
      var last := s[|s| - 1];
      assert SortedBy(ByVal, init) by {
        forall i, j | 0 <= i < j < |init|
          ensures Key(ByVal, init[i]) <= Key(ByVal, init[j])
        {
          assert init[i] == s[i] && init[j] == s[j];
        }
      }
      LeafValsAscending(init);
      if last.Leaf? {
        var r := LeafVals(s);
        var a := LeafVals(init);
        assert r == a + [last.val];
        forall i | 0 <= i < |a|
          ensures a[i] <= last.val
        {
          FlatMapIn(init, LeafVal, a[i]);
          var k :| 0 <= k < |init| && a[i] in LeafVal(init[k]);
          assert init[k] == s[k];
        }
      }
    }
  }

  /** The first element of an ascending list is its least. */
  lemma AscendingHead(a: seq<int>, x: int)
    requires Ascending(a) && x in a
    ensures a[0] <= x
  {
  }

  /** Two ascending lists with the same elements are equal. */
  lemma {:induction false} AscendingUnique(a: seq<int>, b: seq<int>)
    requires Ascending(a) && Ascending(b) && multiset(a) == multiset(b)
    ensures a == b
    decreases |a|
  {
    if a == [] {
      assert |b| == |multiset(b)| == 0;
    } else {
      AscendingSameHead(a, b);
      SameTails(a, b);
      AscendingTail(a);
      AscendingTail(b);
      AscendingUnique(a[1..], b[1..]);
      assert a == [a[0]] + a[1..] && b == [b[0]] + b[1..];
    }
  }

  lemma AscendingSameHead(a: seq<int>, b: seq<int>)
    requires Ascending(a) && Ascending(b) && multiset(a) == multiset(b) && a != []
    ensures b != [] && a[0] == b[0]
  {
    assert a[0] in multiset(b);
    assert b[0] in multiset(a);
    AscendingHead(a, b[0]);
    AscendingHead(b, a[0]);
  }

  /** Equal heads leave equal multisets behind. */
  lemma SameTails(a: seq<int>, b: seq<int>)
    requires multiset(a) == multiset(b) && a != [] && b != [] && a[0] == b[0]
    ensures multiset(a[1..]) == multiset(b[1..])
  {
    RemoveMatch(a, b, 0);
    assert b[..0] + b[1..] == b[1..];
  }

  lemma AscendingTail(a: seq<int>)
    requires Ascending(a) && a != []
    ensures Ascending(a[1..])
  {
    forall i, j | 0 <= i < j < |a| - 1
      ensures a[1..][i] <= a[1..][j]
    {
      assert a[1..][i] == a[i + 1] && a[1..][j] == a[j + 1];
    }
  }

  /** Any two `byVal` orders of a level visit its leaves in the same order. */
  lemma SortedLeafVals(p: seq<Node>, q: seq<Node>)
    requires SortedBy(ByVal, p) && SortedBy(ByVal, q) && multiset(p) == multiset(q)
    ensures LeafVals(p) == LeafVals(q)
  {
    LeafValsAscending(p);
    LeafValsAscending(q);
    FlatMapPerm(p, q, LeafVal);
    AscendingUnique(LeafVals(p), LeafVals(q));
  }

  // ---------------------------------------------------------------------
  // The visit
  // ---------------------------------------------------------------------

  /** A leaf `val` met at depth `depth`. */
  datatype Entry = Entry(val: int, depth: nat)

  /** The values of one level, each marked with the level's depth. */
  function Tag(vals: seq<int>, d: nat): (r: seq<Entry>)
    ensures |r| == |vals|
  {
    if vals == [] then [] else Tag(vals[..|vals| - 1], d) + [Entry(vals[|vals| - 1], d)]
  }

  /** The leaf values of level `d` in the order the walk visits them. */
  function LevelVals(t: Node, d: nat): seq<int>
  {
    LeafVals(SortBy(ByVal, Level(t, d)))
  }

  /** The leaves of the levels above `d`, in visiting order. */
  function Walk(t: Node, d: nat): seq<Entry>
  {
    if d == 0 then [] else Walk(t, d - 1) + Tag(LevelVals(t, d - 1), d - 1)
  }

  /** `2^32`: `count` is an `int32` and `Code.val` a `uint32`; both are kept as the 32-bit pattern. */
  const Wrap: nat := 0x1_0000_0000

  /** The running state of the walk: `count` (as its bit pattern), `bitLength` and the book. */
  datatype State = State(count: uint32, bitLength: nat, codes: seq<Code>)

  /** The state the walk starts in: `count` is -1 and every code is zero. */
  function Init(n: nat): State
  {
    State(0xFFFF_FFFF, 0, seq(n, _ => Code(0, 0)))
  }

  /**
   * `count = (count+1) << uint(i-bitLength)` in 32-bit arithmetic; a
   * negative shift count converts to a huge unsigned one, which shifts
   * everything out.
   */
  function Shifted(s: State, d: nat): uint32
  {
    var steps := if d >= s.bitLength then Pow2(d - s.bitLength) else 0;
    ((s.count as nat + 1) * steps % Wrap) as uint32
  }

  /**
   * One leaf of the walk: the new count, the new bit length and the
   * leaf's code `{bits: byte(i), val: uint32(count)}`. A value outside
   * the book, which Go would index out of range, writes nothing.
   */
  function Visit(s: State, e: Entry): (r: State)
    ensures |r.codes| == |s.codes|
  {
    var c := Shifted(s, e.depth);
    var codes := if 0 <= e.val < |s.codes| then s.codes[e.val := Code(c, (e.depth % 256) as byte)] else s.codes;
    State(c, e.depth, codes)
  }

  /** The state after visiting the entries of `es` in order. */
  function Run(es: seq<Entry>, s: State): (r: State)
    ensures |r.codes| == |s.codes|
  {
    if es == [] then s else Visit(Run(es[..|es| - 1], s), es[|es| - 1])
  }

  lemma RunSnoc(es: seq<Entry>, e: Entry, s: State)
    ensures Run(es + [e], s) == Visit(Run(es, s), e)
  {
    assert (es + [e])[..|es|] == es;
  }

  lemma {:induction false} RunAppend(a: seq<Entry>, b: seq<Entry>, s: State)
    ensures Run(a + b, s) == Run(b, Run(a, s))
    decreases |b|
  {
    if b == [] {
      assert a + b == a;
    } else {
      RunAppend(a, b[..|b| - 1], s);
      assert (a + b)[..|a + b| - 1] == a + b[..|b| - 1];
    }
  }

  /** The book `genBookFromTree(t, n)` returns. */
  function BookOf(t: Node, n: nat): (b: Book)
    ensures |b.codes| == n
  {
    Book(Run(Walk(t, Height(t) + 1), Init(n)).codes)
  }

  // ---------------------------------------------------------------------
  // genBookFromTree
  // ---------------------------------------------------------------------

  /** `sort.Sort(byVal(level))`: some order of the level, sorted by value. */
  method SortLevel(level: seq<Node>) returns (sorted: seq<Node>)
    ensures SortedBy(ByVal, sorted) && multiset(sorted) == multiset(level)
  {
    sorted := SortBy(ByVal, level);
    SortByPerm(ByVal, level);
    SortBySorted(ByVal, level);
  }

  /**
   * genBookFromTree: the levels are built as the walk goes, each level
   * sorted by value before it is walked; every leaf gets the next count,
   * shifted left by how much deeper it lies than the previous leaf.
   */
  method GenBookFromTree(t: Node, length: nat) returns (book: Book)
    requires ValsIn(t, length)
    ensures book == BookOf(t, length)
  {
    var codes := new Code[length](_ => Code(0, 0));
    assert codes[..] == Init(length).codes;
    var count, bitLength, i := WalkLevels(t, codes);
    book := Book(codes[..]);
    WalkEnds(t, i, length, State(count, bitLength, codes[..]));
  }

  /** The loops of genBookFromTree: level after level until no deeper level appears. */
  method WalkLevels(t: Node, codes: array<Code>) returns (count: uint32, bitLength: nat, ghost i: nat)
    requires ValsIn(t, codes.Length) && codes[..] == Init(codes.Length).codes
    modifies codes
    ensures Level(t, i) == [] && i <= Height(t) + 1
    ensures State(count, bitLength, codes[..]) == Run(Walk(t, i), Init(codes.Length))
  {
    var levels: seq<seq<Node>> := [[t]];
    count, bitLength := 0xFFFF_FFFF, 0;
    var k := 0;
    while k < |levels|
      invariant Pending(t, levels, k) && Walked(t, k, count, bitLength, codes[..])
      decreases Height(t) + 1 - k
    {
      levels, count, bitLength := WalkNext(t, k, levels, codes, count, bitLength);
      k := k + 1;
    }
    i := k;
  }

  /**
   * `levels` holds, at index `k`, level `k` of the tree in some order and
   * nothing past it, or the walk has reached an empty level `k`.
   */
  ghost predicate Pending(t: Node, levels: seq<seq<Node>>, k: nat)
  {
    k <= |levels| <= k + 1 && |levels| <= Height(t) + 1
    && (k < |levels| ==> multiset(levels[k]) == multiset(Level(t, k)))
    && (k == |levels| ==> Level(t, k) == [])
  }

  /** The walk has visited the levels above `k`. */
  ghost predicate Walked(t: Node, k: nat, count: uint32, bitLength: nat, codes: seq<Code>)
  {
    bitLength <= k && State(count, bitLength, codes) == Run(Walk(t, k), Init(|codes|))
  }

  /** One turn of the outer loop of genBookFromTree: sort level `i`, then walk it. */
  method WalkNext(t: Node, i: nat, levels: seq<seq<Node>>, codes: array<Code>, count: uint32, bitLength: nat)
    returns (levels': seq<seq<Node>>, count': uint32, bitLength': nat)
    requires ValsIn(t, codes.Length)
    requires Pending(t, levels, i) && i < |levels| && Walked(t, i, count, bitLength, codes[..])
    modifies codes
    ensures Pending(t, levels', i + 1) && Walked(t, i + 1, count', bitLength', codes[..])
  {
    var level := SortLevel(levels[i]);
    levels' := levels[i := level];
    LevelMembersIn(t, codes.Length, i, level);
    levels', count', bitLength' := WalkLevel(levels', i, codes, count, bitLength);
    RunAppend(Walk(t, i), Tag(LeafVals(level), i), Init(codes.Length));
    NextLevel(t, i, level);
    if Kids(level) != [] {
      assert |levels'| == i + 2 && levels'[i + 1] == Kids(level);
      LevelWithin(t, i + 1);
    } else {
      assert |levels'| == i + 1;
    }
  }

  lemma LevelMembersIn(t: Node, n: nat, i: nat, level: seq<Node>)
    requires ValsIn(t, n) && multiset(level) == multiset(Level(t, i))
    ensures forall x :: x in level ==> ValsIn(x, n)
  {
    LevelValsIn(t, n, i);
    forall x | x in level
      ensures ValsIn(x, n)
    {
      assert x in multiset(Level(t, i));
    }
  }

  /** A level walked in `byVal` order contributes its leaves as `Walk` lists them, and its children make the next level. */
  lemma NextLevel(t: Node, i: nat, level: seq<Node>)
    requires SortedBy(ByVal, level) && multiset(level) == multiset(Level(t, i))
    ensures Walk(t, i + 1) == Walk(t, i) + Tag(LeafVals(level), i)
    ensures multiset(Kids(level)) == multiset(Level(t, i + 1))
    ensures Kids(level) == [] <==> Level(t, i + 1) == []
  {
    SortedLevelVals(t, i, level);
    FlatMapPerm(level, Level(t, i), Children);
    assert |Kids(level)| == |multiset(Kids(level))| == |Level(t, i + 1)|;
  }

  /** Whichever `byVal` order the sort leaves a level in, its leaves come out as `LevelVals` lists them. */
  lemma SortedLevelVals(t: Node, i: nat, level: seq<Node>)
    requires SortedBy(ByVal, level) && multiset(level) == multiset(Level(t, i))
    ensures LeafVals(level) == LevelVals(t, i)
  {
    SortByPerm(ByVal, Level(t, i));
    SortBySorted(ByVal, Level(t, i));
    SortedLeafVals(level, SortBy(ByVal, Level(t, i)));
  }

  /**
   * The inner loop of genBookFromTree over `levels[i]`: the children of
   * each internal node go to the end of `levels[i+1]`, opened when the
   * first of them arrives; each leaf is visited.
   */
  method WalkLevel(levels: seq<seq<Node>>, i: nat, codes: array<Code>, count: uint32, bitLength: nat)
    returns (levels': seq<seq<Node>>, count': uint32, bitLength': nat)
    requires |levels| == i + 1 && bitLength <= i
    requires forall x :: x in levels[i] ==> ValsIn(x, codes.Length)
    modifies codes
    ensures |levels'| > i && levels'[..i + 1] == levels && bitLength' <= i
    ensures Kids(levels[i]) == [] ==> |levels'| == i + 1
    ensures Kids(levels[i]) != [] ==> |levels'| == i + 2 && levels'[i + 1] == Kids(levels[i])
    ensures State(count', bitLength', codes[..]) == Run(Tag(LeafVals(levels[i]), i), State(count, bitLength, old(codes[..])))
  {
    var level := levels[i];
    levels', count', bitLength' := levels, count, bitLength;
    ghost var s0 := State(count, bitLength, codes[..]);
    assert level[..0] == [] && Tag(LeafVals([]), i) == [];
    var j := 0;
    while j < |level|
      invariant 0 <= j <= |level| && |levels'| > i && levels'[..i + 1] == levels
      invariant Kids(level[..j]) == [] ==> |levels'| == i + 1
      invariant Kids(level[..j]) != [] ==> |levels'| == i + 2 && levels'[i + 1] == Kids(level[..j])
      invariant bitLength' <= i
      invariant State(count', bitLength', codes[..]) == Run(Tag(LeafVals(level[..j]), i), s0)
    {
      var n := level[j];
      LevelSnoc(level, j);
      if n.Pair? {
        if |levels'| == i + 1 {
          levels' := levels' + [[]];
          assert Kids(level[..j]) == [];
        }
        levels' := levels'[i + 1 := levels'[i + 1] + [n.left, n.right]];
      } else {
        assert n in level;
        ghost var before := State(count', bitLength', codes[..]);
        count', bitLength' := VisitLeaf(codes, count', bitLength', n.val, i);
        TagSnoc(LeafVals(level[..j]), n.val, i);
        RunSnoc(Tag(LeafVals(level[..j]), i), Entry(n.val, i), s0);
      }
      j := j + 1;
    }
    assert level[..|level|] == level;
  }

  /** One more node of a level: its children join the next level, and a leaf joins the visit. */
  lemma LevelSnoc(level: seq<Node>, j: nat)
    requires j < |level|
    ensures Kids(level[..j + 1]) == Kids(level[..j]) + Children(level[j])
    ensures level[j].Pair? ==> LeafVals(level[..j + 1]) == LeafVals(level[..j])
    ensures level[j].Leaf? ==> LeafVals(level[..j + 1]) == LeafVals(level[..j]) + [level[j].val]
  {
    assert level[..j + 1][..j] == level[..j];
  }

  lemma TagSnoc(vals: seq<int>, v: int, d: nat)
    ensures Tag(vals + [v], d) == Tag(vals, d) + [Entry(v, d)]
  {
    assert (vals + [v])[..|vals|] == vals;
  }

  /** The leaf branch of genBookFromTree: one step of `Visit`. */
  method VisitLeaf(codes: array<Code>, count: uint32, bitLength: nat, val: int, i: nat)
    returns (count': uint32, bitLength': nat)
    requires 0 <= val < codes.Length && bitLength <= i
    modifies codes
    ensures bitLength' == i
    ensures State(count', bitLength', codes[..]) == Visit(State(count, bitLength, old(codes[..])), Entry(val, i))
  {
    count' := (((count as nat + 1) * Pow2(i - bitLength)) % Wrap) as uint32;
    bitLength' := i;
    codes[val] := Code(count', (i % 256) as byte);
  }

  /** A level that is not empty lies within the height. */
  lemma LevelWithin(t: Node, d: nat)
    requires Level(t, d) != []
    ensures d <= Height(t)
  {
    if d > Height(t) {
      LevelBeyond(t, d);
    }
  }

  /** The walk ends at an empty level `i`: that is level `Height(t) + 1`, so the walk has visited every level. */
  lemma WalkEnds(t: Node, i: nat, length: nat, s: State)
    requires Level(t, i) == [] && i <= Height(t) + 1
    requires s == Run(Walk(t, i), Init(length))
    ensures i == Height(t) + 1
    ensures BookOf(t, length) == Book(s.codes)
  {
    if i <= Height(t) {
      LevelNonEmpty(t, i);
    }
  }

  // ---------------------------------------------------------------------
  // NewBook
  // ---------------------------------------------------------------------

  /** The leaves `NewBook` starts from: symbol `base + i` with frequency `freq[i]`. */
  function SymbolsFrom(freq: seq<int>, base: int): (s: seq<Node>)
    ensures |s| == |freq|
  {
    seq(|freq|, i requires 0 <= i < |freq| => Leaf(base + i, freq[i]))
  }

  function Symbols(freq: seq<int>): seq<Node>
  {
    SymbolsFrom(freq, 0)
  }

  function Sum(freq: seq<int>): int
  {
    if freq == [] then 0 else freq[0] + Sum(freq[1..])
  }

  /** `t` is a tree `buildTree` can return for `freq`: whatever order its sort leaves the leaves in. */
  ghost predicate HuffmanOf(t: Node, freq: seq<int>)
  {
    exists sorted :: |sorted| >= 1 && SortedBy(ByFreq, sorted) && multiset(sorted) == multiset(Symbols(freq))
      && t == Build(sorted)
  }

  lemma {:induction false} SymbolsTotal(freq: seq<int>, base: int)
    ensures Total(SymbolsFrom(freq, base)) == Sum(freq)
    ensures Bag(SymbolsFrom(freq, base)) == multiset(SymbolsFrom(freq, base))
    ensures AllWellFormed(SymbolsFrom(freq, base))
    decreases |freq|
  {
    var s := SymbolsFrom(freq, base);
    if freq != [] {
      assert s[1..] == SymbolsFrom(freq[1..], base + 1);
      SymbolsTotal(freq[1..], base + 1);
      assert s == [s[0]] + s[1..];
    }
  }

  /** A tree whose leaves all have values in `[0, n)` satisfies `ValsIn`. */
  lemma {:induction false} BagValsIn(t: Node, n: nat)
    requires forall x :: x in LeafBag(t) ==> x.Leaf? && 0 <= x.val < n
    ensures ValsIn(t, n)
  {
    if t.Pair? {
      BagValsIn(t.left, n);
      BagValsIn(t.right, n);
    }
  }

  /** What `buildTree` makes of the leaves of `freq`: their sum at the root, each leaf once, and a well-formed tree. */
  lemma HuffmanKeeps(t: Node, freq: seq<int>)
    requires HuffmanOf(t, freq)
    ensures t.freq == Sum(freq)
    ensures LeafBag(t) == multiset(Symbols(freq))
    ensures WellFormed(t)
    ensures ValsIn(t, |freq|)
  {
    var sorted :| |sorted| >= 1 && SortedBy(ByFreq, sorted) && multiset(sorted) == multiset(Symbols(freq))
      && t == Build(sorted);
    BuildSymbols(sorted, freq);
  }

  lemma BuildSymbols(sorted: seq<Node>, freq: seq<int>)
    requires |sorted| >= 1 && multiset(sorted) == multiset(Symbols(freq))
    ensures Build(sorted).freq == Sum(freq)
    ensures LeafBag(Build(sorted)) == multiset(Symbols(freq))
    ensures WellFormed(Build(sorted))
    ensures ValsIn(Build(sorted), |freq|)
  {
    SymbolsTotal(freq, 0);
    TotalPerm(sorted, Symbols(freq));
    WellFormedPerm(sorted, Symbols(freq));
    BuildKeeps(sorted);
    forall x | x in LeafBag(Build(sorted))
      ensures x.Leaf? && 0 <= x.val < |freq|
    {
      SymbolIn(freq, x);
    }
    BagValsIn(Build(sorted), |freq|);
  }

  lemma SymbolIn(freq: seq<int>, x: Node)
    requires x in multiset(Symbols(freq))
    ensures x.Leaf? && 0 <= x.val < |freq| && x == Leaf(x.val, freq[x.val])
  {
    var i :| 0 <= i < |freq| && Symbols(freq)[i] == x;
  }

  /**
   * NewBook: one leaf per symbol, zero frequencies included, then
   * `buildTree` and `genBookFromTree`. An empty `freq` makes `buildTree`
   * index an empty slice. The ghost `tree` is the tree it built.
   */
  method NewBook(freq: seq<int>) returns (book: Book, ghost tree: Node)
    requires |freq| >= 1
    ensures |book.codes| == |freq|
    ensures HuffmanOf(tree, freq)
    ensures book == BookOf(tree, |freq|)
  {
    var nodes := new Node[|freq|];
    for v := 0 to |freq|
      invariant forall k :: 0 <= k < v ==> nodes[k] == Leaf(k, freq[k])
    {
      nodes[v] := Leaf(v, freq[v]);
    }
    assert nodes[..] == Symbols(freq);
    var root;
    ghost var sorted;
    root, sorted := BuildTree(nodes);
    tree := root;
    assert |sorted| == |multiset(sorted)| >= 1;
    HuffmanKeeps(tree, freq);
    book := GenBookFromTree(root, |freq|);
  }
}
