/**
 * The move-to-front stage `mtf` of encoder.go: the bytes of the block are
 * replaced by their current positions in a front list that starts as the
 * used bytes in ascending order and moves each byte to the front once it
 * has been coded.
 */
module Mtf {
  import opened Bytes

  // ---------------------------------------------------------------------
  // The front list
  // ---------------------------------------------------------------------

  /** The bytes below `n` that occur in `data`, in ascending order. */
  function UsedBelow(data: seq<byte>, n: nat): (r: seq<byte>)
    requires n <= 256
    ensures |r| <= n
  {
    if n == 0 then [] else UsedBelow(data, n - 1) + (if (n - 1) as byte in data then [(n - 1) as byte] else [])
  }

  /** The initial front list: every byte that occurs in `data`, ascending. */
  function UsedList(data: seq<byte>): seq<byte>
  {
    UsedBelow(data, 256)
  }

  predicate StrictlyAscending(s: seq<byte>)
  {
    forall i, j :: 0 <= i < j < |s| ==> s[i] < s[j]
  }

  /** `UsedBelow` lists exactly the bytes below `n` that occur, in ascending order. */
  lemma {:induction false} UsedBelowSpec(data: seq<byte>, n: nat)
    requires n <= 256
    ensures forall b: byte :: b in UsedBelow(data, n) <==> b < n && b in data
    ensures StrictlyAscending(UsedBelow(data, n))
  {
    if n > 0 {
      UsedBelowSpec(data, n - 1);
      var prev := UsedBelow(data, n - 1);
      forall i | 0 <= i < |prev|
        ensures prev[i] < n - 1
      {
        assert prev[i] in prev;
      }
    }
  }

  /** The initial front list holds exactly the bytes of `data`, ascending. */
  lemma UsedListMembers(data: seq<byte>)
    ensures forall b: byte :: b in UsedList(data) <==> b in data
  {
    UsedBelowSpec(data, 256);
  }

  lemma UsedListSpec(data: seq<byte>)
    ensures forall b: byte :: b in UsedList(data) <==> b in data
    ensures StrictlyAscending(UsedList(data)) && |UsedList(data)| <= 256
  {
    UsedBelowSpec(data, 256);
  }

  /** The tail of an ascending list holds the members above its head. */
  lemma AscendingTail(a: seq<byte>, x: byte)
    requires StrictlyAscending(a) && a != []
    ensures x in a[1..] <==> x in a && x > a[0]
  {
    if x in a[1..] {
      var j :| 0 <= j < |a[1..]| && a[1..][j] == x;
      assert a[j + 1] == x;
    }
    if x in a && x > a[0] {
      var j :| 0 <= j < |a| && a[j] == x;
      assert a[1..][j - 1] == x;
    }
  }

  /** Two ascending lists with the same members are the same list. */
  lemma {:induction false} AscendingUnique(a: seq<byte>, b: seq<byte>)
    requires StrictlyAscending(a) && StrictlyAscending(b)
    requires forall x: byte :: x in a <==> x in b
    ensures a == b
    decreases |a| + |b|
  {
    if a != [] && b != [] {
      assert a[0] in b && b[0] in a;
      HeadLeast(a, b[0]);
      HeadLeast(b, a[0]);
      forall x: byte
        ensures x in a[1..] <==> x in b[1..]
      {
        AscendingTail(a, x);
        AscendingTail(b, x);
      }
      AscendingUnique(a[1..], b[1..]);
      assert a == [a[0]] + a[1..] && b == [b[0]] + b[1..];
    } else {
      EmptyBoth(a, b);
    }
  }

  /** Lists with the same members are empty together. */
  lemma EmptyBoth(a: seq<byte>, b: seq<byte>)
    requires forall x: byte :: x in a <==> x in b
    ensures a == [] <==> b == []
  {
    if a != [] {
      assert a[0] in b;
    }
    if b != [] {
      assert b[0] in a;
    }
  }

  /** The head of an ascending list is its least member. */
  lemma HeadLeast(a: seq<byte>, x: byte)
    requires StrictlyAscending(a) && x in a
    ensures a[0] <= x
  {
    var j :| 0 <= j < |a| && a[j] == x;
  }

  /** The first position of `c` in the front list. */
  function IndexOf(list: seq<byte>, c: byte): (i: nat)
    requires c in list
    ensures i < |list| && list[i] == c
    ensures forall j :: 0 <= j < i ==> list[j] != c
  {
    if list[0] == c then 0 else 1 + IndexOf(list[1..], c)
  }

  /** `copy(frontlist[1:i+1], frontlist[:i]); frontlist[0] = d` on the front list. */
  function MoveToFront(list: seq<byte>, i: nat): seq<byte>
    requires i < |list|
  {
    [list[i]] + list[..i] + list[i + 1..]
  }

  /** Element `j` of the list after the move. */
  lemma MoveToFrontAt(list: seq<byte>, i: nat, j: nat)
    requires i < |list| && j < |list|
    ensures |MoveToFront(list, i)| == |list|
    ensures MoveToFront(list, i)[j] == if j == 0 then list[i] else if j <= i then list[j - 1] else list[j]
  {
  }

  /** The move reorders the list and nothing else. */
  lemma MoveToFrontPerm(list: seq<byte>, i: nat)
    requires i < |list|
    ensures multiset(MoveToFront(list, i)) == multiset(list)
    ensures forall b :: b in MoveToFront(list, i) <==> b in list
    ensures |MoveToFront(list, i)| == |list| && MoveToFront(list, i)[0] == list[i]
  {
    assert list == list[..i] + [list[i]] + list[i + 1..];
    assert multiset(MoveToFront(list, i)) == multiset(list);
    forall b
      ensures b in MoveToFront(list, i) <==> b in list
    {
      assert b in MoveToFront(list, i) <==> b in multiset(MoveToFront(list, i));
      assert b in list <==> b in multiset(list);
    }
  }

  // ---------------------------------------------------------------------
  // The transform and its inverse
  // ---------------------------------------------------------------------

  /**
   * What the walk over the input emits from front list `list`: the index of
   * each byte, after which the byte moves to the front. A byte missing from
   * the list is skipped, as the search loop then finds nothing.
   */
  function MtfFrom(list: seq<byte>, s: seq<byte>): seq<byte>
    requires |list| <= 256
    decreases |s|
  {
    if s == [] then []
    else if s[0] in list then
      var i := IndexOf(list, s[0]);
      [i as byte] + MtfFrom(MoveToFront(list, i), s[1..])
    else MtfFrom(list, s[1..])
  }

  /** Decoding: each index names the byte at that position, which then moves to the front. */
  function UnMtfFrom(list: seq<byte>, codes: seq<byte>): seq<byte>
    decreases |codes|
  {
    if codes == [] then []
    else if codes[0] < |list| then [list[codes[0]]] + UnMtfFrom(MoveToFront(list, codes[0]), codes[1..])
    else []
  }

  predicate AllIn(s: seq<byte>, list: seq<byte>)
  {
    forall k :: 0 <= k < |s| ==> s[k] in list
  }

  lemma AllInStep(s: seq<byte>, list: seq<byte>, i: nat)
    requires s != [] && AllIn(s, list) && i < |list|
    ensures AllIn(s[1..], MoveToFront(list, i))
  {
    MoveToFrontPerm(list, i);
    forall k | 0 <= k < |s[1..]|
      ensures s[1..][k] in MoveToFront(list, i)
    {
      assert s[1..][k] == s[k + 1];
    }
  }

  /** Decoding the indices gives the input back. */
  lemma {:induction false} UnMtfMtf(list: seq<byte>, s: seq<byte>)
    requires |list| <= 256 && AllIn(s, list)
    ensures UnMtfFrom(list, MtfFrom(list, s)) == s
    decreases |s|
  {
    if s != [] {
      assert s[0] in list;
      var i := IndexOf(list, s[0]);
      MoveToFrontPerm(list, i);
      AllInStep(s, list, i);
      UnMtfMtf(MoveToFront(list, i), s[1..]);
      var codes := MtfFrom(list, s);
      assert codes[0] == i && codes[1..] == MtfFrom(MoveToFront(list, i), s[1..]);
      assert s == [s[0]] + s[1..];
    }
  }

  /** One index per input byte, each below the size of the front list. */
  lemma {:induction false} MtfBounds(list: seq<byte>, s: seq<byte>)
    requires |list| <= 256 && AllIn(s, list)
    ensures |MtfFrom(list, s)| == |s|
    ensures forall k :: 0 <= k < |s| ==> MtfFrom(list, s)[k] < |list|
    decreases |s|
  {
    if s != [] {
      assert s[0] in list;
      var i := IndexOf(list, s[0]);
      MoveToFrontPerm(list, i);
      AllInStep(s, list, i);
      MtfBounds(MoveToFront(list, i), s[1..]);
      var out := MtfFrom(list, s);
      assert out == [i as byte] + MtfFrom(MoveToFront(list, i), s[1..]);
      forall k | 0 <= k < |s|
        ensures out[k] < |list|
      {
        if k > 0 {
          assert out[k] == MtfFrom(MoveToFront(list, i), s[1..])[k - 1];
        }
      }
    }
  }

  /** A byte equal to its predecessor is coded as 0: the predecessor was just moved to the front. */
  lemma {:induction false} MtfRepeat(list: seq<byte>, s: seq<byte>, k: nat)
    requires |list| <= 256 && AllIn(s, list)
    requires 0 < k < |s| && s[k] == s[k - 1]
    ensures |MtfFrom(list, s)| == |s| && MtfFrom(list, s)[k] == 0
    decreases k
  {
    MtfBounds(list, s);
    assert s[0] in list;
    var i := IndexOf(list, s[0]);
    var next := MoveToFront(list, i);
    MoveToFrontPerm(list, i);
    AllInStep(s, list, i);
    var rest := MtfFrom(next, s[1..]);
    assert MtfFrom(list, s) == [i as byte] + rest;
    if k == 1 {
      assert s[1..][0] == s[0] == next[0];
      assert IndexOf(next, s[1..][0]) == 0;
    } else {
      MtfRepeat(next, s[1..], k - 1);
    }
  }

  // ---------------------------------------------------------------------
  // The Go loop
  // ---------------------------------------------------------------------

  /** The walk's invariant across input byte `k`, found at index `i` of the list. */
  lemma MtfStep(out: seq<byte>, list: seq<byte>, next: seq<byte>, input: seq<byte>, k: nat, i: nat, target: seq<byte>)
    requires |list| <= 256 && k < |input| && input[k] in list && i == IndexOf(list, input[k])
    requires next == MoveToFront(list, i)
    requires forall b: byte :: b in list <==> b in input
    requires out + MtfFrom(list, input[k..]) == target
    ensures |next| == |list| && forall b: byte :: b in next <==> b in input
    ensures out + [i as byte] + MtfFrom(next, input[k + 1..]) == target
  {
    var rest := input[k..];
    assert rest[0] == input[k] && rest[1..] == input[k + 1..];
    MoveToFrontPerm(list, i);
    AppendAssoc(out, [i as byte], MtfFrom(next, rest[1..]));
  }

  /** The array after `copy(frontlist[1:i+1], frontlist[:i]); frontlist[0] = c` holds the moved list. */
  lemma ShiftedList(before: seq<byte>, after: seq<byte>, count: nat, i: nat)
    requires count <= |before| == |after| && i < count
    requires after[0] == before[i]
    requires forall j :: 1 <= j <= i ==> after[j] == before[j - 1]
    requires forall j :: i < j < |after| ==> after[j] == before[j]
    ensures after[..count] == MoveToFront(before[..count], i)
  {
    forall j | 0 <= j < count
      ensures after[..count][j] == MoveToFront(before[..count], i)[j]
    {
      MoveToFrontAt(before[..count], i, j);
    }
  }

  /** The first loop of `mtf`: `used[c] = true` for every input byte. */
  method MarkUsed(input: seq<byte>) returns (used: array<bool>)
    ensures fresh(used) && used.Length == 256
    ensures forall b: byte :: used[b] <==> b in input
  {
    used := new bool[256](_ => false);
    for k := 0 to |input|
      invariant forall b: byte :: used[b] <==> b in input[..k]
    {
      assert input[..k + 1] == input[..k] + [input[k]];
      used[input[k]] := true;
    }
    assert input[..|input|] == input;
  }

  /** The second loop of `mtf`: the used bytes, ascending, at the start of a zeroed 256-byte list. */
  method LayOut(input: seq<byte>, used: array<bool>) returns (frontlist: array<byte>, count: nat)
    requires used.Length == 256 && forall b: byte :: used[b] <==> b in input
    ensures fresh(frontlist) && frontlist.Length == 256
    ensures count <= 256 && frontlist[..count] == UsedList(input)
  {
    frontlist := new byte[256](_ => 0);
    count := 0;
    for i := 0 to 256
      invariant count <= i
      invariant frontlist[..count] == UsedBelow(input, i)
    {
      if used[i] {
        frontlist[count] := i as byte;
        assert frontlist[..count + 1] == frontlist[..count] + [i as byte];
        count := count + 1;
      }
    }
  }

  /** The search `for i, d := range frontlist { if c == d { ... break } }`. */
  method Find(frontlist: array<byte>, count: nat, c: byte) returns (i: nat)
    requires frontlist.Length == 256 && count <= 256 && c in frontlist[..count]
    ensures i == IndexOf(frontlist[..count], c)
  {
    ghost var list := frontlist[..count];
    i := 0;
    while i < 256 && frontlist[i] != c
      invariant i <= IndexOf(list, c)
    {
      i := i + 1;
    }
  }

  /** `copy(frontlist[1:i+1], frontlist[:i]); frontlist[0] = d` with `d == frontlist[i]`. */
  method MoveFront(frontlist: array<byte>, count: nat, i: nat, c: byte)
    requires i < count <= frontlist.Length && frontlist[i] == c
    modifies frontlist
    ensures frontlist[..count] == MoveToFront(old(frontlist[..count]), i)
  {
    ghost var before := frontlist[..];
    forall j | 1 <= j <= i {
      frontlist[j] := frontlist[j - 1];
    }
    frontlist[0] := c;
    ShiftedList(before, frontlist[..], count, i);
  }

  /**
   * `mtf` (encoder.go): marks the used bytes, lays them out ascending in a
   * 256-byte front list, then codes each input byte by its position in the
   * list and moves it to the front.
   */
  method Mtf(input: seq<byte>) returns (used: seq<bool>, out: seq<byte>)
    ensures |used| == 256 && forall b: byte :: used[b] <==> b in input
    ensures out == MtfFrom(UsedList(input), input)
  {
    var usedFlags := MarkUsed(input);
    var frontlist, count := LayOut(input, usedFlags);
    used := usedFlags[..];
    UsedListMembers(input);

    ghost var target := MtfFrom(UsedList(input), input);
    out := [];
    var k := 0;
    while k < |input|
      invariant k <= |input| && count <= 256 && frontlist.Length == 256
      invariant forall b: byte :: b in frontlist[..count] <==> b in input
      invariant out + MtfFrom(frontlist[..count], input[k..]) == target
      modifies frontlist
    {
      var c := input[k];
      ghost var list := frontlist[..count];
      var i := Find(frontlist, count, c);
      MoveFront(frontlist, count, i, c);
      MtfStep(out, list, frontlist[..count], input, k, i, target);
      out := out + [i as byte];
      k := k + 1;
    }
  }

  // ---------------------------------------------------------------------
  // What the stage promises
  // ---------------------------------------------------------------------

  /**
   * The output of `mtf` has one index per input byte, each below the number
   * of distinct bytes used, and decoding it from the same initial list gives
   * the input back; a byte repeated immediately is coded as 0.
   */
  lemma MtfSpec(input: seq<byte>)
    ensures |MtfFrom(UsedList(input), input)| == |input|
    ensures forall k :: 0 <= k < |input| ==> MtfFrom(UsedList(input), input)[k] < |UsedList(input)|
    ensures UnMtfFrom(UsedList(input), MtfFrom(UsedList(input), input)) == input
    ensures forall k :: 0 < k < |input| && input[k] == input[k - 1] ==> MtfFrom(UsedList(input), input)[k] == 0
  {
    UsedListMembers(input);
    var list := UsedList(input);
    assert AllIn(input, list);
    MtfBounds(list, input);
    UnMtfMtf(list, input);
    forall k | 0 < k < |input| && input[k] == input[k - 1]
      ensures MtfFrom(list, input)[k] == 0
    {
      MtfRepeat(list, input, k);
    }
  }

  /** One step of the walk. */
  lemma MtfFromCons(list: seq<byte>, c: byte, rest: seq<byte>, i: nat)
    requires |list| <= 256 && c in list && i == IndexOf(list, c)
    ensures MtfFrom(list, [c] + rest) == [i as byte] + MtfFrom(MoveToFront(list, i), rest)
  {
    assert ([c] + rest)[1..] == rest;
  }

  /**
   * The example of writer_test.go, "bananaaa" codes as 1, 1, 2, 1, 1, 1, 0, 0,
   * stated for any three bytes `a < b < n` in the roles of 'a', 'b' and 'n'.
   */
  lemma MtfExample(a: byte, b: byte, n: byte)
    requires a < b < n
    ensures MtfFrom(UsedList([b, a, n, a, n, a, a, a]), [b, a, n, a, n, a, a, a]) == [1, 1, 2, 1, 1, 1, 0, 0]
  {
    var input := [b, a, n, a, n, a, a, a];
    UsedListSpec(input);
    AscendingUnique(UsedList(input), [a, b, n]);
    MtfExampleSteps(a, b, n);
  }

  /** A step of the walk, with the index, the moved list and the rest's codes given. */
  lemma MtfFromStep(list: seq<byte>, c: byte, rest: seq<byte>, i: nat, next: seq<byte>, codes: seq<byte>)
    requires |list| <= 256 && c in list && i == IndexOf(list, c) && next == MoveToFront(list, i)
    requires MtfFrom(next, rest) == codes
    ensures MtfFrom(list, [c] + rest) == [i as byte] + codes
  {
    MtfFromCons(list, c, rest, i);
  }

  /** The front-list moves of the example. */
  lemma ExampleMoves(a: byte, b: byte, n: byte)
    ensures MoveToFront([a, n, b], 0) == [a, n, b] && MoveToFront([n, a, b], 1) == [a, n, b]
    ensures MoveToFront([a, n, b], 1) == [n, a, b] && MoveToFront([a, b, n], 2) == [n, a, b]
    ensures MoveToFront([b, a, n], 1) == [a, b, n] && MoveToFront([a, b, n], 1) == [b, a, n]
  {
  }

  /** The front-list searches of the example. */
  lemma ExampleIndices(a: byte, b: byte, n: byte)
    requires a < b < n
    ensures IndexOf([a, n, b], a) == 0 && IndexOf([n, a, b], a) == 1 && IndexOf([a, n, b], n) == 1
    ensures IndexOf([a, b, n], n) == 2 && IndexOf([b, a, n], a) == 1 && IndexOf([a, b, n], b) == 1
  {
  }

  /** The example's input and output, written as the walk builds them. */
  lemma ExampleSeqs(a: byte, b: byte, n: byte)
    ensures [b] + ([a] + ([n] + ([a] + ([n] + ([a] + ([a] + ([a] + [])))))))
         == [b, a, n, a, n, a, a, a]
    ensures [1 as byte] + ([1 as byte] + ([2 as byte] + ([1 as byte] + ([1 as byte] + ([1 as byte] + ([0 as byte] + ([0 as byte] + [])))))))
         == [1, 1, 2, 1, 1, 1, 0, 0]
  {
  }

  lemma MtfExampleSteps(a: byte, b: byte, n: byte)
    requires a < b < n
    ensures MtfFrom([a, b, n], [b, a, n, a, n, a, a, a]) == [1, 1, 2, 1, 1, 1, 0, 0]
  {
    var abn, ban, nab, anb := [a, b, n], [b, a, n], [n, a, b], [a, n, b];
    ExampleMoves(a, b, n);
    ExampleIndices(a, b, n);
    ExampleSeqs(a, b, n);
    var s8, c8: seq<byte> := [], [];
    var s7, c7 := [a] + s8, [0 as byte] + c8;
    MtfFromStep(anb, a, s8, 0, anb, c8);
    var s6, c6 := [a] + s7, [0 as byte] + c7;
    MtfFromStep(anb, a, s7, 0, anb, c7);
    var s5, c5 := [a] + s6, [1 as byte] + c6;
    MtfFromStep(nab, a, s6, 1, anb, c6);
    var s4, c4 := [n] + s5, [1 as byte] + c5;
    MtfFromStep(anb, n, s5, 1, nab, c5);
    var s3, c3 := [a] + s4, [1 as byte] + c4;
    MtfFromStep(nab, a, s4, 1, anb, c4);
    var s2, c2 := [n] + s3, [2 as byte] + c3;
    MtfFromStep(abn, n, s3, 2, nab, c3);
    var s1, c1 := [a] + s2, [1 as byte] + c2;
    MtfFromStep(ban, a, s2, 1, abn, c2);
    var s0, c0 := [b] + s1, [1 as byte] + c1;
    MtfFromStep(abn, b, s1, 1, ban, c1);
  }
}
