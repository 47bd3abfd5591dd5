/**
 * What `NewBook` (huffman/huffman.go) promises of the book it returns,
 * stated on the book alone: each symbol's code is as long as its leaf is
 * deep, the codes are prefix-free, their lengths satisfy Kraft's equality,
 * and each code value is the canonical one of section 3.2.2 of RFC 1951 —
 * the number of code words of its length used up by the symbols that come
 * before it, ordered by code length and then by symbol.
 *
 * The main lemmas take the complete walk `w` as a parameter fixed by
 * `requires w == Walk(t, Height(t) + 1)`. It is not an extra hypothesis:
 * it only names that term, so the proofs can refer to it cheaply.
 */
module BookSpec {
  import opened Bytes
  import opened Huffman
  import opened Canonical
  import opened BookProofs
  import opened BookCodes
  import opened WalkOrder

  /** The book's code lengths, each with its symbol. */
  function Lengths(b: Book): (r: seq<Entry>)
    ensures |r| == |b.codes|
  {
    seq(|b.codes|, v requires 0 <= v < |b.codes| => Entry(v, b.codes[v].bits))
  }

  /** `a` comes strictly before `b` in the canonical order: shorter, or as long with a smaller symbol. */
  predicate Before(a: Entry, b: Entry)
  {
    a.depth < b.depth || (a.depth == b.depth && a.val < b.val)
  }

  /** The entries of `s` that come before `x`. */
  function Earlier(s: seq<Entry>, x: Entry): seq<Entry>
  {
    if s == [] then []
    else if Before(s[|s| - 1], x) then Earlier(s[..|s| - 1], x) + [s[|s| - 1]]
    else Earlier(s[..|s| - 1], x)
  }

  /**
   * The canonical code value of a symbol of length `len`, in a book with
   * the code lengths `lengths` (RFC 1951, section 3.2.2): the code words of
   * length `len` that the symbols before it use up.
   */
  function CanonicalValue(lengths: seq<Entry>, v: int, len: nat): nat
  {
    Kraft(Earlier(lengths, Entry(v, len)), len)
  }

  lemma {:induction false} EarlierCount(s: seq<Entry>, y: Entry, x: Entry)
    ensures multiset(Earlier(s, y))[x] == if Before(x, y) then multiset(s)[x] else 0
    decreases |s|
  {
    if s != [] {
      EarlierCount(s[..|s| - 1], y, x);
      assert s == s[..|s| - 1] + [s[|s| - 1]];
    }
  }

  // ---------------------------------------------------------------------
  // The walk of a tree NewBook builds
  // ---------------------------------------------------------------------

  /** The facts about the walk that the book's properties rest on. */
  ghost predicate GoodWalk(w: seq<Entry>, n: nat, H: nat)
  {
    Fits(w, H) && Kraft(w, H) == Pow2(H) && |w| == n && n >= 1
    && DistinctVals(w) && ValsBelow(w, n) && (forall v :: 0 <= v < n ==> Named(w, v))
    && (forall i, j :: 0 <= i < j < |w| ==> NotAfter(w[i], w[j]))
  }

  lemma WalkFacts(t: Node, freq: seq<int>, w: seq<Entry>)
    requires HuffmanOf(t, freq) && Height(t) <= 32 && w == Walk(t, Height(t) + 1)
    ensures GoodWalk(w, |freq|, Height(t))
    ensures multiset(w) == multiset(LeafEntries(t, 0))
  {
    WalkKraft(t, w);
    WalkVals(t, freq, w);
    NonEmpty(w, LeafEntries(t, 0));
    GoodFrom(w, |freq|, Height(t));
  }

  lemma WalkKraft(t: Node, w: seq<Entry>)
    requires w == Walk(t, Height(t) + 1)
    ensures OrderedAbove(w, Height(t) + 1)
    ensures Kraft(w, Height(t)) == Pow2(Height(t))
  {
    OrderedWalk(t, w, Height(t) + 1);
    KraftWalk(t, w);
  }

  lemma NonEmpty(w: seq<Entry>, all: seq<Entry>)
    requires multiset(w) == multiset(all) && |all| >= 1
    ensures |w| >= 1
  {
    assert |multiset(all)| >= 1;
  }

  lemma GoodFrom(w: seq<Entry>, n: nat, H: nat)
    requires multiset(Map(w, EntryVal)) == multiset(Range(n))
    requires OrderedAbove(w, H + 1) && Kraft(w, H) == Pow2(H) && H <= 32 && |w| >= 1
    ensures GoodWalk(w, n, H)
  {
    ValsOfRange(w, n);
    OrderedFits(w, H);
  }

  lemma OrderedWalk(t: Node, w: seq<Entry>, d: nat)
    requires w == Walk(t, d)
    ensures OrderedAbove(w, d)
  {
    Ordered(t, d);
  }

  lemma OrderedFits(w: seq<Entry>, H: nat)
    requires OrderedAbove(w, H + 1) && Kraft(w, H) == Pow2(H) && H <= 32
    ensures Fits(w, H)
  {
    assert Monotone(w) by {
      forall i, j | 0 <= i < j < |w|
        ensures w[i].depth <= w[j].depth
      {
        assert NotAfter(w[i], w[j]);
      }
    }
  }

  /** The code of each symbol is that of its place in the walk. */
  lemma WalkCodes(t: Node, freq: seq<int>, w: seq<Entry>)
    requires HuffmanOf(t, freq) && Height(t) <= 32 && w == Walk(t, Height(t) + 1)
    ensures GoodWalk(w, |freq|, Height(t)) && CodesOf(w, BookOf(t, |freq|))
    ensures multiset(w) == multiset(LeafEntries(t, 0))
  {
    WalkFacts(t, freq, w);
    RunCodes(w, |freq|, Height(t));
    BookOfWalk(t, |freq|, w);
  }

  lemma BookOfWalk(t: Node, n: nat, w: seq<Entry>)
    requires w == Walk(t, Height(t) + 1)
    ensures BookOf(t, n) == Book(Run(w, Init(n)).codes)
  {
  }

  /** Each symbol of the walk has in the book its canonical value and its depth. */
  ghost predicate CodesOf(w: seq<Entry>, book: Book)
  {
    |book.codes| == |w|
    && forall j :: 0 <= j < |w| ==>
      (0 <= w[j].val < |book.codes|
       && book.codes[w[j].val].val as nat == CanonVal(w, j) && book.codes[w[j].val].bits as nat == w[j].depth)
  }

  lemma RunCodes(w: seq<Entry>, n: nat, H: nat)
    requires GoodWalk(w, n, H)
    ensures CodesOf(w, Book(Run(w, Init(n)).codes))
  {
    RunState(w, n, H, |w|);
    assert w[..|w|] == w;
  }

  /** The walk lists the book's code lengths, in another order. */
  lemma WalkIsLengths(w: seq<Entry>, n: nat, H: nat, book: Book)
    requires GoodWalk(w, n, H) && CodesOf(w, book)
    ensures multiset(w) == multiset(Lengths(book))
  {
    var L := Lengths(book);
    assert NoDup(w);
    assert NoDup(L);
    forall x
      ensures x in w <==> x in L
    {
      if x in w {
        var j :| 0 <= j < |w| && w[j] == x;
        assert L[x.val] == x;
      }
      if x in L {
        var v :| 0 <= v < n && L[v] == x;
        assert Named(w, v);
        var j :| 0 <= j < |w| && w[j].val == v;
        assert w[j] == x;
      }
    }
    SameElements(w, L);
  }

  /** The walk's first `j` entries are those of the book that come before entry `j`. */
  lemma WalkEarlier(w: seq<Entry>, n: nat, H: nat, book: Book, j: nat)
    requires GoodWalk(w, n, H) && j < |w|
    requires multiset(w) == multiset(Lengths(book))
    ensures multiset(w[..j]) == multiset(Earlier(Lengths(book), w[j]))
  {
    var p := w[..j];
    assert NoDup(w);
    assert NoDup(p) by {
      forall a, b | 0 <= a < b < |p|
        ensures p[a] != p[b]
      {
        assert p[a] == w[a] && p[b] == w[b];
      }
    }
    forall x
      ensures multiset(p)[x] == multiset(Earlier(Lengths(book), w[j]))[x]
    {
      NoDupCount(p, x);
      NoDupCount(w, x);
      EarlierCount(Lengths(book), w[j], x);
      PrefixMembers(w, n, H, j, x);
    }
  }

  /** An entry is among the first `j` of the walk exactly when it is in the walk and before entry `j`. */
  lemma PrefixMembers(w: seq<Entry>, n: nat, H: nat, j: nat, x: Entry)
    requires GoodWalk(w, n, H) && j < |w|
    ensures x in w[..j] <==> x in w && Before(x, w[j])
  {
    if x in w[..j] {
      var i :| 0 <= i < j && w[..j][i] == x;
      assert w[i] == x && NotAfter(w[i], w[j]) && w[i].val != w[j].val;
    }
    if x in w && Before(x, w[j]) {
      var i :| 0 <= i < |w| && w[i] == x;
      assert w[..j][i] == x;
    }
  }

  /** Where in the walk symbol `v` sits. */
  lemma Place(w: seq<Entry>, n: nat, H: nat, v: int) returns (j: nat)
    requires GoodWalk(w, n, H) && 0 <= v < n
    ensures j < |w| && w[j].val == v
  {
    assert Named(w, v);
    j :| 0 <= j < |w| && w[j].val == v;
  }

  lemma PrefixFreeOn(w: seq<Entry>, n: nat, H: nat, book: Book)
    requires GoodWalk(w, n, H) && CodesOf(w, book)
    ensures forall u, v :: 0 <= u < n && 0 <= v < n && u != v ==> !IsPrefix(book.codes[u], book.codes[v])
  {
    forall u, v | 0 <= u < n && 0 <= v < n && u != v
      ensures !IsPrefix(book.codes[u], book.codes[v])
    {
      var i := Place(w, n, H, u);
      var j := Place(w, n, H, v);
      PrefixFree(w, i, j);
    }
  }

  lemma FitsOn(w: seq<Entry>, n: nat, H: nat, book: Book)
    requires GoodWalk(w, n, H) && CodesOf(w, book)
    ensures forall v :: 0 <= v < n ==> book.codes[v].val as nat < Pow2(book.codes[v].bits as nat)
  {
    forall v | 0 <= v < n
      ensures book.codes[v].val as nat < Pow2(book.codes[v].bits as nat)
    {
      var j := Place(w, n, H, v);
      CanonFits(w, j, H);
    }
  }

  lemma CanonicalOn(w: seq<Entry>, n: nat, H: nat, book: Book)
    requires GoodWalk(w, n, H) && CodesOf(w, book)
    ensures forall v :: 0 <= v < n ==>
      book.codes[v].val as nat == CanonicalValue(Lengths(book), v, book.codes[v].bits as nat)
  {
    WalkIsLengths(w, n, H, book);
    forall v | 0 <= v < n
      ensures book.codes[v].val as nat == CanonicalValue(Lengths(book), v, book.codes[v].bits as nat)
    {
      var j := Place(w, n, H, v);
      WalkEarlier(w, n, H, book, j);
      KraftPerm(w[..j], Earlier(Lengths(book), w[j]), w[j].depth);
    }
  }

  lemma AscendingOn(w: seq<Entry>, n: nat, H: nat, book: Book)
    requires GoodWalk(w, n, H) && CodesOf(w, book)
    ensures forall u, v :: 0 <= u < v < n && book.codes[u].bits == book.codes[v].bits ==>
      book.codes[u].val < book.codes[v].val
  {
    forall u, v | 0 <= u < v < n && book.codes[u].bits == book.codes[v].bits
      ensures book.codes[u].val < book.codes[v].val
    {
      var i := Place(w, n, H, u);
      var j := Place(w, n, H, v);
      PlaceOrder(w, n, H, i, j);
      SameLength(w, i, j);
    }
  }

  /** Of two entries as deep, the one with the smaller symbol comes first. */
  lemma PlaceOrder(w: seq<Entry>, n: nat, H: nat, i: nat, j: nat)
    requires GoodWalk(w, n, H) && i < |w| && j < |w|
    requires w[i].depth == w[j].depth && w[i].val < w[j].val
    ensures i < j
  {
  }

  /** Of two entries as deep, the later one has the larger canonical value. */
  lemma SameLength(w: seq<Entry>, i: nat, j: nat)
    requires Monotone(w) && i < j < |w| && w[i].depth == w[j].depth
    ensures CanonVal(w, i) < CanonVal(w, j)
  {
    LaterAbove(w, i, j);
    assert Pow2(w[j].depth - w[i].depth) == 1;
  }

  // ---------------------------------------------------------------------
  // The book NewBook returns
  // ---------------------------------------------------------------------

  lemma LeafCodes(w: seq<Entry>, all: seq<Entry>, n: nat, H: nat, book: Book)
    requires GoodWalk(w, n, H) && CodesOf(w, book) && multiset(w) == multiset(all)
    ensures forall e :: e in all ==> 0 <= e.val < |book.codes| && book.codes[e.val].bits as nat == e.depth
  {
    forall e | e in all
      ensures 0 <= e.val < |book.codes| && book.codes[e.val].bits as nat == e.depth
    {
      assert e in multiset(w);
      var j :| 0 <= j < |w| && w[j] == e;
    }
  }

  // Each lemma below names the walk `w` genBookFromTree makes of the tree.

  /** Every leaf's symbol has a code, as long as the leaf is deep. */
  lemma CodeLengthIsDepth(t: Node, freq: seq<int>, w: seq<Entry>)
    requires HuffmanOf(t, freq) && Height(t) <= 32 && w == Walk(t, Height(t) + 1)
    ensures forall e :: e in LeafEntries(t, 0) ==>
      0 <= e.val < |freq| && BookOf(t, |freq|).codes[e.val].bits as nat == e.depth
  {
    WalkCodes(t, freq, w);
    LeafCodes(w, LeafEntries(t, 0), |freq|, Height(t), BookOf(t, |freq|));
  }

  /** No code of the book is a prefix of another symbol's code. */
  lemma BookPrefixFree(t: Node, freq: seq<int>, w: seq<Entry>)
    requires HuffmanOf(t, freq) && Height(t) <= 32 && w == Walk(t, Height(t) + 1)
    ensures forall u, v :: 0 <= u < |freq| && 0 <= v < |freq| && u != v ==>
      !IsPrefix(BookOf(t, |freq|).codes[u], BookOf(t, |freq|).codes[v])
  {
    WalkCodes(t, freq, w);
    PrefixFreeOn(w, |freq|, Height(t), BookOf(t, |freq|));
  }

  /**
   * Every code value fits in its length, so writing the value in `bits`
   * bits loses nothing, and the numeric `IsPrefix` relation is the prefix
   * relation of the bit strings.
   */
  lemma BookFits(t: Node, freq: seq<int>, w: seq<Entry>)
    requires HuffmanOf(t, freq) && Height(t) <= 32 && w == Walk(t, Height(t) + 1)
    ensures forall v :: 0 <= v < |freq| ==>
      BookOf(t, |freq|).codes[v].val as nat < Pow2(BookOf(t, |freq|).codes[v].bits as nat)
  {
    WalkCodes(t, freq, w);
    FitsOn(w, |freq|, Height(t), BookOf(t, |freq|));
  }

  /** Kraft's equality: the code lengths use up the code space exactly. */
  lemma BookKraft(t: Node, freq: seq<int>, w: seq<Entry>)
    requires HuffmanOf(t, freq) && Height(t) <= 32 && w == Walk(t, Height(t) + 1)
    ensures Kraft(Lengths(BookOf(t, |freq|)), Height(t)) == Pow2(Height(t))
  {
    WalkCodes(t, freq, w);
    KraftOn(w, |freq|, Height(t), BookOf(t, |freq|));
  }

  /** Each code value is the canonical one for the book's code lengths. */
  lemma BookCanonical(t: Node, freq: seq<int>, w: seq<Entry>)
    requires HuffmanOf(t, freq) && Height(t) <= 32 && w == Walk(t, Height(t) + 1)
    ensures forall v :: 0 <= v < |freq| ==>
      BookOf(t, |freq|).codes[v].val as nat
      == CanonicalValue(Lengths(BookOf(t, |freq|)), v, BookOf(t, |freq|).codes[v].bits as nat)
  {
    WalkCodes(t, freq, w);
    CanonicalOn(w, |freq|, Height(t), BookOf(t, |freq|));
  }

  /** Codes of one length rise with the symbol. */
  lemma BookAscending(t: Node, freq: seq<int>, w: seq<Entry>)
    requires HuffmanOf(t, freq) && Height(t) <= 32 && w == Walk(t, Height(t) + 1)
    ensures forall u, v :: 0 <= u < v < |freq| && BookOf(t, |freq|).codes[u].bits == BookOf(t, |freq|).codes[v].bits ==>
      BookOf(t, |freq|).codes[u].val < BookOf(t, |freq|).codes[v].val
  {
    WalkCodes(t, freq, w);
    AscendingOn(w, |freq|, Height(t), BookOf(t, |freq|));
  }

  lemma KraftOn(w: seq<Entry>, n: nat, H: nat, book: Book)
    requires GoodWalk(w, n, H) && CodesOf(w, book)
    ensures Kraft(Lengths(book), H) == Pow2(H)
  {
    WalkIsLengths(w, n, H, book);
    KraftPerm(w, Lengths(book), H);
  }
}
