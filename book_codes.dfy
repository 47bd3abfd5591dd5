/**
 * The code values `genBookFromTree` hands out (huffman/huffman.go): in the
 * order the walk meets the leaves — by depth, then by symbol — each code
 * is the code space the earlier codes take up, counted in words of its own
 * length. That is the canonical code of section 3.2.2 of RFC 1951, and
 * such codes are prefix-free.
 */
module BookCodes {
  import opened Bytes
  import opened Huffman
  import opened Canonical
  import opened BookProofs

  // ---------------------------------------------------------------------
  // Lists of leaves met in order of depth
  // ---------------------------------------------------------------------

  /** Depths never decrease along the list. */
  predicate Monotone(es: seq<Entry>)
  {
    forall i, j :: 0 <= i < j < |es| ==> es[i].depth <= es[j].depth
  }

  /** No entry lies deeper than `D`. */
  predicate Within(es: seq<Entry>, D: nat)
  {
    forall i :: 0 <= i < |es| ==> es[i].depth <= D
  }

  /** No symbol is listed twice. */
  predicate DistinctVals(es: seq<Entry>)
  {
    forall i, j :: 0 <= i < j < |es| ==> es[i].val != es[j].val
  }

  /** Every symbol lies in `[0, n)`. */
  predicate ValsBelow(es: seq<Entry>, n: nat)
  {
    forall i :: 0 <= i < |es| ==> 0 <= es[i].val < n
  }

  /**
   * The canonical code value of entry `j`: the share of the code space the
   * entries before it take, counted in words of length `es[j].depth`.
   */
  function CanonVal(es: seq<Entry>, j: nat): nat
    requires j < |es|
  {
    Kraft(es[..j], es[j].depth)
  }

  lemma MonotonePrefix(es: seq<Entry>, k: nat)
    requires Monotone(es) && k <= |es|
    ensures Monotone(es[..k])
  {
    forall i, j | 0 <= i < j < k
      ensures es[..k][i].depth <= es[..k][j].depth
    {
      assert es[..k][i] == es[i] && es[..k][j] == es[j];
    }
  }

  lemma WithinPrefix(es: seq<Entry>, k: nat, D: nat)
    requires Within(es, D) && k <= |es|
    ensures Within(es[..k], D)
  {
    forall i | 0 <= i < k
      ensures es[..k][i].depth <= D
    {
      assert es[..k][i] == es[i];
    }
  }

  /** In a monotone list, everything before entry `j` lies no deeper than it. */
  lemma WithinBefore(es: seq<Entry>, j: nat)
    requires Monotone(es) && j < |es|
    ensures Within(es[..j], es[j].depth)
  {
    forall i | 0 <= i < j
      ensures es[..j][i].depth <= es[j].depth
    {
      assert es[..j][i] == es[i];
    }
  }

  // ---------------------------------------------------------------------
  // Kraft sums at different lengths
  // ---------------------------------------------------------------------

  /** Counting in words `e` bits longer multiplies a Kraft sum by `2^e`. */
  lemma {:induction false} KraftScale(es: seq<Entry>, a: nat, e: nat)
    requires Within(es, a)
    ensures Kraft(es, a + e) == Kraft(es, a) * Pow2(e)
    decreases |es|
  {
    if es != [] {
      var init := es[..|es| - 1];
      var x := es[|es| - 1];
      WithinPrefix(es, |es| - 1, a);
      KraftScale(init, a, e);
      WeightScale(x, a, e);
      Distribute(Kraft(init, a), Weight(x, a), Pow2(e));
    }
  }

  lemma WeightScale(x: Entry, a: nat, e: nat)
    requires x.depth <= a
    ensures Weight(x, a + e) == Weight(x, a) * Pow2(e)
  {
    assert a + e - x.depth == (a - x.depth) + e;
    Pow2Add(a - x.depth, e);
  }

  lemma Distribute(x: int, y: int, p: int)
    ensures x * p + y * p == (x + y) * p
  {
  }

  /** A quotient is at least `m` when the dividend is at least `m` times the divisor. */
  lemma DivAtLeast(c: nat, m: nat, p: nat)
    requires p > 0 && c >= m * p
    ensures c / p >= m
  {
    var q, r := c / p, c % p;
    assert c == q * p + r;
    if q < m {
      MulLt(q, m, p);
      assert false;
    }
  }

  lemma KraftSnoc(es: seq<Entry>, k: nat, D: nat)
    requires k < |es|
    ensures Kraft(es[..k + 1], D) == Kraft(es[..k], D) + Weight(es[k], D)
  {
    assert es[..k + 1][..k] == es[..k];
  }

  /** The code space up to and including entry `j`, at length `d`: the next code after `j`'s, shifted to length `d`. */
  lemma KraftNext(es: seq<Entry>, j: nat, d: nat)
    requires Monotone(es) && j < |es| && es[j].depth <= d
    ensures Kraft(es[..j + 1], d) == (CanonVal(es, j) + 1) * Pow2(d - es[j].depth)
  {
    var dj := es[j].depth;
    KraftSnoc(es, j, d);
    WithinBefore(es, j);
    KraftScale(es[..j], dj, d - dj);
    assert dj + (d - dj) == d;
    assert Weight(es[j], d) == 1 * Pow2(d - dj);
    Distribute(CanonVal(es, j), 1, Pow2(d - dj));
  }

  /** A prefix of a list takes no more code space than the list. */
  lemma KraftPrefix(es: seq<Entry>, k: nat, D: nat)
    requires k <= |es|
    ensures Kraft(es[..k], D) <= Kraft(es, D)
  {
    assert es == es[..k] + es[k..];
    KraftAppend(es[..k], es[k..], D);
  }

  /** A later prefix takes no less code space. */
  lemma KraftGrows(es: seq<Entry>, i: nat, j: nat, D: nat)
    requires i <= j <= |es|
    ensures Kraft(es[..i], D) <= Kraft(es[..j], D)
  {
    assert es[..j][..i] == es[..i];
    KraftPrefix(es[..j], i, D);
  }

  /** When the codes fit the code space, each canonical value fits its length. */
  lemma CanonFits(es: seq<Entry>, j: nat, D: nat)
    requires Monotone(es) && Within(es, D) && Kraft(es, D) <= Pow2(D) && j < |es|
    ensures CanonVal(es, j) + 1 <= Pow2(es[j].depth)
  {
    var dj := es[j].depth;
    KraftNext(es, j, D);
    KraftPrefix(es, j + 1, D);
    Pow2Split(dj, D);
    MulCancel(CanonVal(es, j) + 1, Pow2(dj), Pow2(D - dj));
  }

  lemma Pow2Split(a: nat, b: nat)
    requires a <= b
    ensures Pow2(b) == Pow2(a) * Pow2(b - a)
  {
    Pow2Add(a, b - a);
    assert a + (b - a) == b;
  }

  lemma MulCancel(x: nat, y: nat, p: nat)
    requires p >= 1 && x * p <= y * p
    ensures x <= y
  {
    if x > y {
      MulLt(y, x, p);
    }
  }

  // ---------------------------------------------------------------------
  // The walk's running state
  // ---------------------------------------------------------------------

  /** The conditions under which the walk's 32-bit arithmetic is exact. */
  ghost predicate Fits(es: seq<Entry>, D: nat)
  {
    Monotone(es) && Within(es, D) && D <= 32 && Kraft(es, D) <= Pow2(D)
  }

  lemma FitsPrefix(es: seq<Entry>, k: nat, D: nat)
    requires Fits(es, D) && k <= |es|
    ensures Fits(es[..k], D)
  {
    MonotonePrefix(es, k);
    WithinPrefix(es, k, D);
    KraftPrefix(es, k, D);
  }

  lemma Pow2Le(a: nat, b: nat)
    requires a <= b
    ensures Pow2(a) <= Pow2(b)
  {
    Pow2Add(a, b - a);
    assert a + (b - a) == b;
  }

  lemma Pow32()
    ensures Pow2(32) == Wrap
  {
    Pow2Add(16, 16);
    Pow2Add(8, 8);
    Pow2Add(4, 4);
  }

  /** The first leaf: `count` goes from -1 to 0 whatever the shift. */
  lemma FirstCount(n: nat, d: nat)
    ensures Shifted(Init(n), d) == 0
  {
    var p := Pow2(d);
    assert (0xFFFF_FFFF + 1) * p == 0 + Wrap * p;
    DivUnique(Wrap * p, Wrap, p, 0);
  }

  /** A later leaf: `(count + 1) << shift` is the next canonical value, and it fits 32 bits. */
  lemma NextCount(es: seq<Entry>, k: nat, D: nat, s: State)
    requires Fits(es, D) && 1 <= k < |es|
    requires s.count as nat == CanonVal(es, k - 1) && s.bitLength == es[k - 1].depth
    ensures Shifted(s, es[k].depth) as nat == CanonVal(es, k)
  {
    var d := es[k].depth;
    var c := CanonVal(es, k - 1);
    KraftNext(es, k - 1, d);
    CanonFits(es, k, D);
    Pow2Le(d, 32);
    Pow32();
    DivUnique((c + 1) * Pow2(d - es[k - 1].depth), Wrap, 0, CanonVal(es, k));
  }

  /**
   * After the first `k` leaves of a list that fits, the walk's `count` is
   * the last leaf's canonical value, `bitLength` its depth, and each
   * leaf visited so far has its canonical value and its depth in the book.
   */
  lemma {:induction false} RunState(es: seq<Entry>, n: nat, D: nat, k: nat)
    requires Fits(es, D) && DistinctVals(es) && ValsBelow(es, n) && 1 <= k <= |es|
    ensures Run(es[..k], Init(n)).count as nat == CanonVal(es, k - 1)
    ensures Run(es[..k], Init(n)).bitLength == es[k - 1].depth
    ensures forall j :: 0 <= j < k ==>
      Run(es[..k], Init(n)).codes[es[j].val].val as nat == CanonVal(es, j)
      && Run(es[..k], Init(n)).codes[es[j].val].bits as nat == es[j].depth
  {
    var s := Run(es[..k - 1], Init(n));
    assert es[..k][..k - 1] == es[..k - 1];
    assert Run(es[..k], Init(n)) == Visit(s, es[k - 1]);
    if k == 1 {
      FirstCount(n, es[0].depth);
    } else {
      RunState(es, n, D, k - 1);
      NextCount(es, k - 1, D, s);
    }
    VisitCodes(es, n, k, s);
  }

  /** Visiting leaf `k - 1` records its code and leaves the codes of the earlier leaves alone. */
  lemma VisitCodes(es: seq<Entry>, n: nat, k: nat, s: State)
    requires DistinctVals(es) && ValsBelow(es, n) && 1 <= k <= |es| && |s.codes| == n
    requires es[k - 1].depth < 256 && Shifted(s, es[k - 1].depth) as nat == CanonVal(es, k - 1)
    requires forall j :: 0 <= j < k - 1 ==>
      s.codes[es[j].val].val as nat == CanonVal(es, j) && s.codes[es[j].val].bits as nat == es[j].depth
    ensures forall j :: 0 <= j < k ==>
      Visit(s, es[k - 1]).codes[es[j].val].val as nat == CanonVal(es, j)
      && Visit(s, es[k - 1]).codes[es[j].val].bits as nat == es[j].depth
  {
    assert es[k - 1].depth % 256 == es[k - 1].depth;
  }

  // ---------------------------------------------------------------------
  // Prefix-freeness
  // ---------------------------------------------------------------------

  /** The code `av` of `ab` bits is a prefix of the code `bv` of `bb` bits: no longer, and `bv`'s leading `ab` bits are `av`. */
  predicate Prefix(av: nat, ab: nat, bv: nat, bb: nat)
  {
    ab <= bb && bv / Pow2(bb - ab) == av
  }

  predicate IsPrefix(a: Code, b: Code)
  {
    Prefix(a.val, a.bits, b.val, b.bits)
  }

  /** A later entry's code, cut to an earlier entry's length, is past the earlier code. */
  lemma LaterAbove(es: seq<Entry>, i: nat, j: nat)
    requires Monotone(es) && i < j < |es|
    ensures CanonVal(es, j) / Pow2(es[j].depth - es[i].depth) >= CanonVal(es, i) + 1
  {
    var dj := es[j].depth;
    var p := Pow2(dj - es[i].depth);
    KraftNext(es, i, dj);
    KraftGrows(es, i + 1, j, dj);
    DivAtLeast(CanonVal(es, j), CanonVal(es, i) + 1, p);
  }

  /** No code of a monotone list is a prefix of another. */
  lemma PrefixFree(es: seq<Entry>, i: nat, j: nat)
    requires Monotone(es) && i < |es| && j < |es| && i != j
    ensures !Prefix(CanonVal(es, i), es[i].depth, CanonVal(es, j), es[j].depth)
  {
    if i < j {
      LaterAbove(es, i, j);
    } else {
      LaterAbove(es, j, i);
      if es[i].depth <= es[j].depth {
        assert es[i].depth == es[j].depth;
      }
    }
  }
}
