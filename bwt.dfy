/**
 * The Burrows-Wheeler stage `bwt` of encoder.go: every rotation of the
 * block is formed, the rotations are sorted as Go strings (bytewise, a
 * proper prefix first), and the last byte of each sorted rotation is
 * emitted. No origin index is produced.
 */
module Bwt {
  import opened Bytes

  // ---------------------------------------------------------------------
  // Go's string order
  // ---------------------------------------------------------------------

  /** `a <= b` as Go compares strings: bytewise, and a proper prefix first. */
  predicate LexLe(a: seq<byte>, b: seq<byte>)
    decreases |a|
  {
    a == [] || (b != [] && (a[0] < b[0] || (a[0] == b[0] && LexLe(a[1..], b[1..]))))
  }

  lemma {:induction false} LexLeRefl(a: seq<byte>)
    ensures LexLe(a, a)
    decreases |a|
  {
    if a != [] {
      LexLeRefl(a[1..]);
    }
  }

  lemma {:induction false} LexLeTotal(a: seq<byte>, b: seq<byte>)
    ensures LexLe(a, b) || LexLe(b, a)
    decreases |a|
  {
    if a != [] && b != [] && a[0] == b[0] {
      LexLeTotal(a[1..], b[1..]);
    }
  }

  lemma {:induction false} LexLeTrans(a: seq<byte>, b: seq<byte>, c: seq<byte>)
    requires LexLe(a, b) && LexLe(b, c)
    ensures LexLe(a, c)
    decreases |a|
  {
    if a != [] && a[0] == b[0] && b[0] == c[0] {
      LexLeTrans(a[1..], b[1..], c[1..]);
    }
  }

  lemma {:induction false} LexLeAntisym(a: seq<byte>, b: seq<byte>)
    requires LexLe(a, b) && LexLe(b, a)
    ensures a == b
    decreases |a|
  {
    if a != [] {
      LexLeAntisym(a[1..], b[1..]);
      assert a == [a[0]] + a[1..] && b == [b[0]] + b[1..];
    }
  }

  // ---------------------------------------------------------------------
  // Sorting the rotations (`sort.Strings`)
  // ---------------------------------------------------------------------

  predicate Sorted(m: seq<seq<byte>>)
  {
    forall i, j :: 0 <= i < j < |m| ==> LexLe(m[i], m[j])
  }

  /** Insertion into a sorted list, ahead of the first element not below `x`. */
  function Insert(x: seq<byte>, m: seq<seq<byte>>): seq<seq<byte>>
  {
    if m == [] then [x] else if LexLe(x, m[0]) then [x] + m else [m[0]] + Insert(x, m[1..])
  }

  /** A sort by Go's string order; `sort.Strings` may order equal strings differently, which changes nothing. */
  function SortStrings(m: seq<seq<byte>>): seq<seq<byte>>
  {
    if m == [] then [] else Insert(m[0], SortStrings(m[1..]))
  }

  lemma {:induction false} InsertPerm(x: seq<byte>, m: seq<seq<byte>>)
    ensures multiset(Insert(x, m)) == multiset(m) + multiset{x}
    decreases |m|
  {
    if m != [] && !LexLe(x, m[0]) {
      InsertPerm(x, m[1..]);
      assert m == [m[0]] + m[1..];
    }
  }

  /** Every row of the insertion is `x` or a row of `m`. */
  lemma InsertMembers(x: seq<byte>, m: seq<seq<byte>>, y: seq<byte>)
    requires y in Insert(x, m)
    ensures y == x || y in m
  {
    InsertPerm(x, m);
    assert y in multiset(Insert(x, m));
  }

  /** The head of a sorted list is below every row. */
  lemma HeadBelow(m: seq<seq<byte>>, y: seq<byte>)
    requires Sorted(m) && y in m
    ensures LexLe(m[0], y)
  {
    var j :| 0 <= j < |m| && m[j] == y;
    if j == 0 {
      LexLeRefl(y);
    }
  }

  lemma {:induction false} InsertSorted(x: seq<byte>, m: seq<seq<byte>>)
    requires Sorted(m)
    ensures Sorted(Insert(x, m))
    decreases |m|
  {
    if m == [] {
    } else if LexLe(x, m[0]) {
      var r := [x] + m;
      forall i, j | 0 <= i < j < |r|
        ensures LexLe(r[i], r[j])
      {
        if i == 0 && j > 1 {
          LexLeTrans(x, m[0], m[j - 1]);
        }
      }
    } else {
      LexLeTotal(x, m[0]);
      var rest := Insert(x, m[1..]);
      InsertSorted(x, m[1..]);
      var r := [m[0]] + rest;
      forall i, j | 0 <= i < j < |r|
        ensures LexLe(r[i], r[j])
      {
        if i == 0 {
          assert r[j] == rest[j - 1];
          InsertMembers(x, m[1..], r[j]);
          if r[j] != x {
            HeadBelow(m, r[j]);
          }
        } else {
          assert r[i] == rest[i - 1] && r[j] == rest[j - 1];
        }
      }
    }
  }

  /** The sort returns a sorted permutation of its input. */
  lemma {:induction false} SortStringsSpec(m: seq<seq<byte>>)
    ensures multiset(SortStrings(m)) == multiset(m)
    ensures Sorted(SortStrings(m))
    decreases |m|
  {
    if m != [] {
      SortStringsSpec(m[1..]);
      InsertPerm(m[0], SortStrings(m[1..]));
      InsertSorted(m[0], SortStrings(m[1..]));
      assert m == [m[0]] + m[1..];
    }
  }

  /**
   * Two sorted permutations of the same strings are equal: equal strings
   * are interchangeable, so an unstable sort gives the same matrix.
   */
  lemma {:induction false} SortedUnique(p: seq<seq<byte>>, q: seq<seq<byte>>)
    requires Sorted(p) && Sorted(q) && multiset(p) == multiset(q)
    ensures p == q
    decreases |p|
  {
    if p == [] {
      assert |q| == |multiset(q)| == 0;
    } else {
      assert |q| == |multiset(q)| == |p|;
      assert p[0] in multiset(q) && q[0] in multiset(p);
      var i :| 0 <= i < |q| && q[i] == p[0];
      var j :| 0 <= j < |p| && p[j] == q[0];
      if i > 0 {
        assert LexLe(q[0], q[i]);
      } else {
        LexLeRefl(q[0]);
      }
      if j > 0 {
        assert LexLe(p[0], p[j]);
      } else {
        LexLeRefl(p[0]);
      }
      LexLeAntisym(p[0], q[0]);
      assert p == [p[0]] + p[1..] && q == [q[0]] + q[1..];
      assert multiset(p) == multiset{p[0]} + multiset(p[1..]);
      assert multiset(q) == multiset{q[0]} + multiset(q[1..]);
      Cancel(p[0], multiset(p[1..]), multiset(q[1..]));
      SortedUnique(p[1..], q[1..]);
    }
  }

  // ---------------------------------------------------------------------
  // The transform
  // ---------------------------------------------------------------------

  /** `string(in[len(in)-i:]) + string(in[:len(in)-i])`: the rotation right by `i`. */
  function Rotation(s: seq<byte>, i: nat): seq<byte>
    requires i <= |s|
  {
    s[|s| - i..] + s[..|s| - i]
  }

  /** The unsorted matrix: row `i` is the rotation right by `i`. */
  function Rotations(s: seq<byte>): (m: seq<seq<byte>>)
    ensures |m| == |s|
  {
    seq(|s|, i requires 0 <= i < |s| => Rotation(s, i))
  }

  function Last(row: seq<byte>): byte
  {
    if row == [] then 0 else row[|row| - 1]
  }

  /** The last column of a matrix. */
  function Lasts(m: seq<seq<byte>>): (r: seq<byte>)
    ensures |r| == |m|
  {
    seq(|m|, k requires 0 <= k < |m| => Last(m[k]))
  }

  /** What `bwt` returns: the last column of the sorted rotations. */
  function BwtOf(s: seq<byte>): seq<byte>
  {
    Lasts(SortStrings(Rotations(s)))
  }

  /** The first loop of `bwt`: row `i` of the matrix becomes the rotation right by `i`. */
  method FillRotations(matrix: array<seq<byte>>, input: seq<byte>)
    requires matrix.Length == |input|
    modifies matrix
    ensures matrix[..] == Rotations(input)
  {
    var n := |input|;
    for i := 0 to n
      invariant forall j :: 0 <= j < i ==> matrix[j] == Rotation(input, j)
    {
      matrix[i] := input[n - i..] + input[..n - i];
    }
  }

  /** `sort.Strings`: the rows end up in Go's string order, as a permutation of what they were. */
  method SortRows(matrix: array<seq<byte>>)
    modifies matrix
    ensures Sorted(matrix[..])
    ensures multiset(matrix[..]) == multiset(old(matrix[..]))
  {
    var sorted := SortStrings(matrix[..]);
    SortStringsSpec(matrix[..]);
    forall j | 0 <= j < matrix.Length {
      matrix[j] := sorted[j];
    }
    assert matrix[..] == sorted;
  }

  /** The second loop of `bwt`: the last byte of every row, top to bottom. */
  method LastColumn(matrix: array<seq<byte>>, n: nat) returns (out: seq<byte>)
    requires forall k :: 0 <= k < matrix.Length ==> |matrix[k]| == n
    requires matrix.Length == n
    ensures out == Lasts(matrix[..])
  {
    out := [];
    for i := 0 to n
      invariant |out| == i
      invariant forall k :: 0 <= k < i ==> out[k] == Last(matrix[k])
    {
      out := out + [matrix[i][n - 1]];
    }
  }

  /** `bwt` (encoder.go): fills the matrix, sorts it in place and reads its last column. */
  method Bwt(input: seq<byte>) returns (out: seq<byte>)
    ensures out == BwtOf(input)
  {
    var matrix := new seq<byte>[|input|];
    FillRotations(matrix, input);
    ghost var rotations := matrix[..];
    SortRows(matrix);
    RotationsLength(input, matrix[..]);
    SortStringsSpec(rotations);
    SortedUnique(matrix[..], SortStrings(rotations));
    out := LastColumn(matrix, |input|);
  }

  /** Every row of a permutation of the rotations is as long as the block. */
  lemma RotationsLength(s: seq<byte>, m: seq<seq<byte>>)
    requires multiset(m) == multiset(Rotations(s))
    ensures |m| == |s|
    ensures forall k :: 0 <= k < |m| ==> |m[k]| == |s|
  {
    assert |m| == |multiset(m)| == |Rotations(s)|;
    forall k | 0 <= k < |m|
      ensures |m[k]| == |s|
    {
      assert m[k] in multiset(Rotations(s));
      var i :| 0 <= i < |s| && Rotations(s)[i] == m[k];
    }
  }

  // ---------------------------------------------------------------------
  // What the stage promises
  // ---------------------------------------------------------------------

  /** The last column of the unsorted matrix is the block reversed. */
  lemma RotationsLasts(s: seq<byte>)
    ensures forall k :: 0 <= k < |s| ==> Lasts(Rotations(s))[k] == s[|s| - 1 - k]
  {
    forall k | 0 <= k < |s|
      ensures Lasts(Rotations(s))[k] == s[|s| - 1 - k]
    {
      var r := Rotation(s, k);
      assert r[|r| - 1] == s[..|s| - k][|s| - k - 1];
    }
  }

  /** The last column of a list with row `j` taken out. */
  lemma LastsRemoveAt(q: seq<seq<byte>>, j: nat)
    requires j < |q|
    ensures multiset(Lasts(q)) == multiset{Last(q[j])} + multiset(Lasts(q[..j] + q[j + 1..]))
  {
    assert Lasts(q) == Lasts(q[..j]) + [Last(q[j])] + Lasts(q[j + 1..]);
    assert Lasts(q[..j] + q[j + 1..]) == Lasts(q[..j]) + Lasts(q[j + 1..]);
  }

  /** Row `j` of `q` matches the first row of `p`: the rest decides. */
  lemma LastsPermStep(p: seq<seq<byte>>, q: seq<seq<byte>>, j: nat)
    requires p != [] && j < |q| && q[j] == p[0]
    requires multiset(Lasts(p[1..])) == multiset(Lasts(q[..j] + q[j + 1..]))
    ensures multiset(Lasts(p)) == multiset(Lasts(q))
  {
    LastsRemoveAt(q, j);
    LastsRemoveAt(p, 0);
    assert p[..0] + p[1..] == p[1..];
  }

  /** Reordering rows reorders their last bytes alike. */
  lemma {:induction false} LastsPerm(p: seq<seq<byte>>, q: seq<seq<byte>>)
    requires multiset(p) == multiset(q)
    ensures multiset(Lasts(p)) == multiset(Lasts(q))
    decreases |p|
  {
    if p == [] {
      assert |q| == |multiset(q)| == 0;
    } else {
      assert p[0] in multiset(q);
      var j :| 0 <= j < |q| && q[j] == p[0];
      RemoveMatch(p, q, j);
      LastsPerm(p[1..], q[..j] + q[j + 1..]);
      LastsPermStep(p, q, j);
    }
  }

  /** The multiset of a reversed block is the block's. */
  lemma {:induction false} ReversedMultiset(s: seq<byte>, r: seq<byte>)
    requires |r| == |s| && forall k :: 0 <= k < |s| ==> r[k] == s[|s| - 1 - k]
    ensures multiset(r) == multiset(s)
    decreases |s|
  {
    if s != [] {
      var s' := s[..|s| - 1];
      var r' := r[1..];
      ReversedMultiset(s', r');
      assert s == s' + [s[|s| - 1]];
      assert r == [r[0]] + r';
    }
  }

  /** The output is as long as the block and a permutation of its bytes; empty in, empty out. */
  lemma BwtPermutation(s: seq<byte>)
    ensures |BwtOf(s)| == |s|
    ensures multiset(BwtOf(s)) == multiset(s)
  {
    SortStringsSpec(Rotations(s));
    RotationsLength(s, SortStrings(Rotations(s)));
    LastsPerm(SortStrings(Rotations(s)), Rotations(s));
    RotationsLasts(s);
    ReversedMultiset(s, Lasts(Rotations(s)));
  }

  /**
   * Output byte `k` is the last byte of the `k`-th rotation in Go's string
   * order, whichever order a sort gives equal rotations.
   */
  lemma BwtLastColumn(s: seq<byte>, sorted: seq<seq<byte>>)
    requires Sorted(sorted) && multiset(sorted) == multiset(Rotations(s))
    ensures |BwtOf(s)| == |sorted| == |s|
    ensures forall k :: 0 <= k < |sorted| ==> |sorted[k]| == |s|
    ensures forall k :: 0 <= k < |s| ==> BwtOf(s)[k] == sorted[k][|s| - 1]
  {
    SortStringsSpec(Rotations(s));
    SortedUnique(SortStrings(Rotations(s)), sorted);
    RotationsLength(s, sorted);
  }

  // ---------------------------------------------------------------------
  // The "^BANANA|" vector
  // ---------------------------------------------------------------------

  /** Two rows whose first difference is at `k` compare by that byte. */
  lemma {:induction false} FirstDifference(u: seq<byte>, v: seq<byte>, k: nat)
    requires k < |u| && k < |v| && u[..k] == v[..k] && u[k] < v[k]
    ensures LexLe(u, v)
    decreases k
  {
    if k > 0 {
      assert u[0] == u[..k][0] && v[0] == v[..k][0];
      assert u[1..][..k - 1] == u[..k][1..] && v[1..][..k - 1] == v[..k][1..];
      FirstDifference(u[1..], v[1..], k - 1);
    }
  }

  lemma {:induction false} Chain(m: seq<seq<byte>>, i: nat, j: nat)
    requires forall k :: 0 <= k < |m| - 1 ==> LexLe(m[k], m[k + 1])
    requires i <= j < |m|
    ensures LexLe(m[i], m[j])
    decreases j - i
  {
    if i == j {
      LexLeRefl(m[i]);
    } else {
      Chain(m, i + 1, j);
      LexLeTrans(m[i], m[i + 1], m[j]);
    }
  }

  /** A list whose neighbours are in order is sorted. */
  lemma AdjacentSorted(m: seq<seq<byte>>)
    requires forall k :: 0 <= k < |m| - 1 ==> LexLe(m[k], m[k + 1])
    ensures Sorted(m)
  {
    forall i, j | 0 <= i < j < |m|
      ensures LexLe(m[i], m[j])
    {
      Chain(m, i, j);
    }
  }

  /** The rotations of `^BANANA|`, with `a < b < n < c < p` standing for `A B N ^ |`. */
  lemma ExampleRotations(a: byte, b: byte, n: byte, c: byte, p: byte)
    ensures Rotations([c, b, a, n, a, n, a, p]) ==
      [[c, b, a, n, a, n, a, p], [p, c, b, a, n, a, n, a],
       [a, p, c, b, a, n, a, n], [n, a, p, c, b, a, n, a],
       [a, n, a, p, c, b, a, n], [n, a, n, a, p, c, b, a],
       [a, n, a, n, a, p, c, b], [b, a, n, a, n, a, p, c]]
  {
    var s := [c, b, a, n, a, n, a, p];
    var r := Rotations(s);
    assert r[0] == s;
    assert r[1] == [p, c, b, a, n, a, n, a];
    assert r[2] == [a, p, c, b, a, n, a, n];
    assert r[3] == [n, a, p, c, b, a, n, a];
    assert r[4] == [a, n, a, p, c, b, a, n];
    assert r[5] == [n, a, n, a, p, c, b, a];
    assert r[6] == [a, n, a, n, a, p, c, b];
    assert r[7] == [b, a, n, a, n, a, p, c];
  }

  /** Eight rows listed one by one, as a concatenation of single rows. */
  lemma Singles<T>(r0: T, r1: T, r2: T, r3: T, r4: T, r5: T, r6: T, r7: T)
    ensures [r6] + [r4] + [r2] + [r7] + [r5] + [r3] + [r0] + [r1] == [r6, r4, r2, r7, r5, r3, r0, r1]
    ensures [r0] + [r1] + [r2] + [r3] + [r4] + [r5] + [r6] + [r7] == [r0, r1, r2, r3, r4, r5, r6, r7]
  {
  }

  /** The sorted order is a reordering of the rows. */
  lemma ExamplePerm<T>(r0: T, r1: T, r2: T, r3: T, r4: T, r5: T, r6: T, r7: T)
    ensures multiset([r6, r4, r2, r7, r5, r3, r0, r1]) == multiset([r0, r1, r2, r3, r4, r5, r6, r7])
  {
    Singles(r0, r1, r2, r3, r4, r5, r6, r7);
    assert multiset([r6] + [r4] + [r2] + [r7] + [r5] + [r3] + [r0] + [r1])
        == multiset([r0] + [r1] + [r2] + [r3] + [r4] + [r5] + [r6] + [r7]);
  }

  /** The rotations of `^BANANA|` in Go's string order. */
  lemma ExampleSorted(a: byte, b: byte, n: byte, c: byte, p: byte)
    requires a < b < n < c < p
    ensures Sorted([[a, n, a, n, a, p, c, b], [a, n, a, p, c, b, a, n],
                    [a, p, c, b, a, n, a, n], [b, a, n, a, n, a, p, c],
                    [n, a, n, a, p, c, b, a], [n, a, p, c, b, a, n, a],
                    [c, b, a, n, a, n, a, p], [p, c, b, a, n, a, n, a]])
  {
    var m := [[a, n, a, n, a, p, c, b], [a, n, a, p, c, b, a, n],
              [a, p, c, b, a, n, a, n], [b, a, n, a, n, a, p, c],
              [n, a, n, a, p, c, b, a], [n, a, p, c, b, a, n, a],
              [c, b, a, n, a, n, a, p], [p, c, b, a, n, a, n, a]];
    FirstDifference(m[0], m[1], 3);
    FirstDifference(m[1], m[2], 1);
    FirstDifference(m[2], m[3], 0);
    FirstDifference(m[3], m[4], 0);
    FirstDifference(m[4], m[5], 2);
    FirstDifference(m[5], m[6], 0);
    FirstDifference(m[6], m[7], 0);
    AdjacentSorted(m);
  }

  /** The last column of the sorted rotations of `^BANANA|`. */
  lemma ExampleLasts(a: byte, b: byte, n: byte, c: byte, p: byte)
    ensures Lasts([[a, n, a, n, a, p, c, b], [a, n, a, p, c, b, a, n],
                   [a, p, c, b, a, n, a, n], [b, a, n, a, n, a, p, c],
                   [n, a, n, a, p, c, b, a], [n, a, p, c, b, a, n, a],
                   [c, b, a, n, a, n, a, p], [p, c, b, a, n, a, n, a]]) == [b, n, n, c, a, a, p, a]
  {
  }

  /** `bwt("^BANANA|") == "BNN^AA|A"`, for any bytes ordered as `A < B < N < ^ < |` are. */
  lemma BwtExample(a: byte, b: byte, n: byte, c: byte, p: byte)
    requires a < b < n < c < p
    ensures BwtOf([c, b, a, n, a, n, a, p]) == [b, n, n, c, a, a, p, a]
  {
    var r0, r1, r2, r3 := [c, b, a, n, a, n, a, p], [p, c, b, a, n, a, n, a], [a, p, c, b, a, n, a, n], [n, a, p, c, b, a, n, a];
    var r4, r5, r6, r7 := [a, n, a, p, c, b, a, n], [n, a, n, a, p, c, b, a], [a, n, a, n, a, p, c, b], [b, a, n, a, n, a, p, c];
    var rows := [r0, r1, r2, r3, r4, r5, r6, r7];
    var m := [r6, r4, r2, r7, r5, r3, r0, r1];
    ExampleRotations(a, b, n, c, p);
    ExampleSorted(a, b, n, c, p);
    ExamplePerm(r0, r1, r2, r3, r4, r5, r6, r7);
    SortStringsSpec(rows);
    SortedUnique(SortStrings(rows), m);
    ExampleLasts(a, b, n, c, p);
  }
}
