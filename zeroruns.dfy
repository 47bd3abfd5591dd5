/**
 * encoder.go's `rleMTF`: after move-to-front, every run of zero symbols
 * becomes a numeral in bijective base 2 written with the two markers RUNA
 * (digit 1) and RUNB (digit 2), least significant digit first, and every
 * other symbol `c` becomes `c + 1`.
 */
module ZeroRuns {
  import opened Bytes
  import Bzip2

  /** `n` in bijective base 2, least significant digit first: RUNA stands for 1, RUNB for 2. */
  function Digits(n: nat): (r: seq<uint16>)
    ensures n > 0 <==> |r| > 0
    decreases n
  {
    if n == 0 then []
    else if n % 2 == 1 then [Bzip2.RunA] + Digits((n - 1) / 2)
    else [Bzip2.RunB] + Digits((n - 2) / 2)
  }

  /** A numeral is made of RUNA and RUNB symbols only. */
  lemma {:induction false} DigitsAreRuns(n: nat)
    ensures forall i :: 0 <= i < |Digits(n)| ==> Digits(n)[i] == Bzip2.RunA || Digits(n)[i] == Bzip2.RunB
    decreases n
  {
    if n > 0 {
      var m := if n % 2 == 1 then (n - 1) / 2 else (n - 2) / 2;
      DigitsAreRuns(m);
      assert Digits(n)[1..] == Digits(m);
    }
  }

  /** The number a RUNA/RUNB numeral stands for: digit `i` weighs `2^i` (RUNA) or `2^(i+1)` (RUNB). */
  function Value(ds: seq<uint16>): nat
  {
    if ds == [] then 0 else (if ds[0] == Bzip2.RunA then 1 else 2) + 2 * Value(ds[1..])
  }

  /** Reading the digits back gives the run length. */
  lemma {:induction false} ValueOfDigits(n: nat)
    ensures Value(Digits(n)) == n
    decreases n
  {
    if n > 0 {
      var m := if n % 2 == 1 then (n - 1) / 2 else (n - 2) / 2;
      ValueOfDigits(m);
      assert Digits(n)[1..] == Digits(m);
    }
  }

  /** Every RUNA/RUNB numeral is the numeral of its value: the numeration is bijective. */
  lemma {:induction false} DigitsOfValue(ds: seq<uint16>)
    requires forall i :: 0 <= i < |ds| ==> ds[i] == Bzip2.RunA || ds[i] == Bzip2.RunB
    ensures Digits(Value(ds)) == ds
  {
    if ds != [] {
      var tail := ds[1..];
      var n, v := Value(ds), Value(tail);
      if ds[0] == Bzip2.RunA {
        assert n == 1 + 2 * v;
        assert n % 2 == 1 && (n - 1) / 2 == v;
      } else {
        assert n == 2 + 2 * v;
        assert n % 2 == 0 && (n - 2) / 2 == v;
      }
      assert forall i :: 0 <= i < |tail| ==> tail[i] == ds[i + 1];
      DigitsOfValue(tail);
      assert Digits(n) == [ds[0]] + tail;
      assert ds == [ds[0]] + tail;
    }
  }

  // ---------------------------------------------------------------------
  // The digit loop, with Go's uint16 `count` and `place`
  // ---------------------------------------------------------------------

  /** `place * rest` minus one or two places is a multiple of the next place. */
  lemma NextPlace(place: nat, rest: nat, d: nat)
    requires 1 <= d <= 2 && d <= rest && (rest - d) % 2 == 0
    ensures place * rest - d * place == (2 * place) * ((rest - d) / 2)
  {
    var h := (rest - d) / 2;
    assert rest == d + 2 * h;
    calc {
      place * rest - d * place;
    ==
      place * (d + 2 * h) - d * place;
    ==
      place * (2 * h);
    ==
      (2 * place) * h;
    }
  }

  /** `p * r` by repeated addition, so that the loop below carries no product. */
  function Scaled(p: nat, r: nat): nat
  {
    if r == 0 then 0 else p + Scaled(p, r - 1)
  }

  lemma {:induction false} ScaledIsProduct(p: nat, r: nat)
    ensures Scaled(p, r) == p * r
  {
    if r > 0 {
      ScaledIsProduct(p, r - 1);
    }
  }

  /**
   * One round of the digit loop, while `count == place * rest`: the bit
   * test picks the digit of `rest`, the uint16 products do not wrap, and
   * the new count is the new place times what is left.
   */
  lemma PlaceStep(c: nat, place: nat, rest: nat, d: nat, c2: int, place2: nat, rest2: nat)
    requires c == Scaled(place, rest) && 0 < place <= c < 0x1_0000
    requires d == (if rest % 2 == 1 then 1 else 2) && rest2 == (rest - d) / 2
    requires place2 == (place * 2) % 0x1_0000
    requires c2 == c - (if d == 1 then place else (place * 2) % 0x1_0000)
    ensures rest > 0 && ((c / place) % 2 == 1 <==> d == 1)
    ensures 0 <= c2 == Scaled(place2, rest2) && (c2 > 0 ==> 0 < place2 <= c2) && (c2 == 0 ==> rest2 == 0)
  {
    ScaledIsProduct(place, rest);
    PlaceBit(c, place, rest, d);
    PlaceNext(c, place, rest, d, c2, place2, rest2);
    ScaledIsProduct(place2, rest2);
  }

  /** The bit test at `place` reads the parity of `rest`. */
  lemma PlaceBit(c: nat, place: nat, rest: nat, d: nat)
    requires c == place * rest && 0 < place <= c
    requires d == (if rest % 2 == 1 then 1 else 2)
    ensures rest > 0 && ((c / place) % 2 == 1 <==> d == 1)
  {
    DivUnique(c, place, rest, 0);
  }

  /** Taking the digit's places off leaves the next place times what is left, with no wrap. */
  lemma PlaceNext(c: nat, place: nat, rest: nat, d: nat, c2: int, place2: nat, rest2: nat)
    requires c == place * rest && 0 < place <= c < 0x1_0000 && rest > 0
    requires d == (if rest % 2 == 1 then 1 else 2) && rest2 == (rest - d) / 2
    requires place2 == (place * 2) % 0x1_0000
    requires c2 == c - (if d == 1 then place else (place * 2) % 0x1_0000)
    ensures 0 <= c2 == place2 * rest2 && (c2 > 0 ==> 0 < place2 <= c2) && (c2 == 0 ==> rest2 == 0)
  {
    var m := 2 * place;
    if d == 2 {
      MulLe(2, rest, place);
    }
    NextPlace(place, rest, d);
    assert c2 == m * rest2;
    if rest2 > 0 {
      MulLe(1, rest2, m);
      assert place2 == m;
    }
  }

  /** The first digit of `rest`, and the digits of what is left. */
  lemma DigitsStep(rest: nat, d: nat, rest2: nat)
    requires rest > 0 && d == (if rest % 2 == 1 then 1 else 2) && rest2 == (rest - d) / 2
    ensures Digits(rest) == [if d == 1 then Bzip2.RunA else Bzip2.RunB] + Digits(rest2)
  {
  }

  /**
   * The `for place = 1; count > 0; place <<= 1` loop of `rleMTF`: emits the
   * digits of `count`. `count & place != 0` is written as the test of bit
   * `place` of `count`; `place` is shifted with uint16 wrap-around.
   */
  method EmitRun(count: uint16) returns (ds: seq<uint16>, left: uint16)
    ensures ds == Digits(count) && left == 0
  {
    var c: uint16 := count;
    var place: uint16 := 1;
    ghost var rest: nat := count;
    ScaledIsProduct(1, count);
    ds := [];
    while c > 0
      invariant c == Scaled(place, rest)
      invariant c > 0 ==> 0 < place <= c
      invariant c == 0 ==> rest == 0
      invariant ds + Digits(rest) == Digits(count)
      decreases c
    {
      ghost var d: nat := if rest % 2 == 1 then 1 else 2;
      ghost var rest2: nat := (rest - d) / 2;
      PlaceStep(c, place, rest, d, c - (if d == 1 then place else (place * 2) % 0x1_0000), (place * 2) % 0x1_0000, rest2);
      DigitsStep(rest, d, rest2);
      ghost var ds0 := ds;
      if (c / place) % 2 == 1 {
        c := c - place;
        ds := ds + [Bzip2.RunA];
      } else {
        c := c - (place * 2) % 0x1_0000;
        ds := ds + [Bzip2.RunB];
      }
      AppendAssoc(ds0, [if d == 1 then Bzip2.RunA else Bzip2.RunB], Digits(rest2));
      rest := rest2;
      place := (place * 2) % 0x1_0000;
    }
    assert ds + [] == ds;
    left := c;
  }

  // ---------------------------------------------------------------------
  // The whole pass
  // ---------------------------------------------------------------------

  /**
   * What `rleMTF` emits for `s` while `count` zeros are pending. The count
   * is Go's uint16 and wraps around after 65535 zeros.
   */
  function Encode(count: uint16, s: seq<byte>): seq<uint16>
    decreases |s|
  {
    if s == [] then Digits(count)
    else if s[0] == 0 then Encode((count + 1) % 0x1_0000, s[1..])
    else Digits(count) + ([s[0] as uint16 + 1] + Encode(0, s[1..]))
  }

  /** The same pass with an unbounded zero counter. */
  function EncodeWide(count: nat, s: seq<byte>): seq<uint16>
    decreases |s|
  {
    if s == [] then Digits(count)
    else if s[0] == 0 then EncodeWide(count + 1, s[1..])
    else Digits(count) + ([s[0] as uint16 + 1] + EncodeWide(0, s[1..]))
  }

  /**
   * Decoding: RUNA and RUNB digits add their weight `w` or `2 * w` to the
   * pending zero run and double the weight; any other symbol `x` up to 256
   * ends the run and stands for the byte `x - 1`. A larger symbol is not
   * an encoding of anything and ends the decoding.
   */
  function Decode(acc: nat, w: nat, syms: seq<uint16>): seq<byte>
    decreases |syms|
  {
    if syms == [] then Repeat(0, acc)
    else if syms[0] == Bzip2.RunA then Decode(acc + w, 2 * w, syms[1..])
    else if syms[0] == Bzip2.RunB then Decode(acc + 2 * w, 2 * w, syms[1..])
    else if syms[0] <= 256 then Repeat(0, acc) + ([syms[0] - 1] + Decode(0, 1, syms[1..]))
    else Repeat(0, acc)
  }

  /** The weight after the digits of `n`, starting from weight `w`. */
  function WeightAfter(w: nat, n: nat): nat
    decreases n
  {
    if n == 0 then w else WeightAfter(2 * w, if n % 2 == 1 then (n - 1) / 2 else (n - 2) / 2)
  }

  /** Decoding the first digit of `n` at weight `w`. */
  lemma DecodeDigit(acc: nat, w: nat, n: nat, d: nat, m: nat, rest: seq<uint16>)
    requires n > 0 && d == (if n % 2 == 1 then 1 else 2) && m == (n - d) / 2
    ensures Decode(acc, w, Digits(n) + rest) == Decode(acc + (if d == 1 then w else 2 * w), 2 * w, Digits(m) + rest)
    ensures WeightAfter(w, n) == WeightAfter(2 * w, m)
  {
    DigitsStep(n, d, m);
    AppendAssoc([if d == 1 then Bzip2.RunA else Bzip2.RunB], Digits(m), rest);
    var syms := Digits(n) + rest;
    assert syms[1..] == Digits(m) + rest;
  }

  /** The zeros that the digits of `n` stand for when the first digit has weight `w`. */
  function Weighted(w: nat, n: nat): nat
    decreases n
  {
    if n == 0 then 0
    else if n % 2 == 1 then w + Weighted(2 * w, (n - 1) / 2)
    else 2 * w + Weighted(2 * w, (n - 2) / 2)
  }

  /** The digits of `n` stand for `n` runs of `w` zeros. */
  lemma {:induction false} WeightedIsProduct(w: nat, n: nat)
    ensures Weighted(w, n) == w * n
    decreases n
  {
    if n > 0 {
      var d := if n % 2 == 1 then 1 else 2;
      var m := (n - d) / 2;
      WeightedIsProduct(2 * w, m);
      NextPlace(w, n, d);
      assert Weighted(w, n) == d * w + (2 * w) * m;
    }
  }

  /** Decoding the digits of `n` adds the zeros they stand for to the pending run. */
  lemma {:induction false} DecodeWeighted(acc: nat, w: nat, n: nat, rest: seq<uint16>)
    ensures Decode(acc, w, Digits(n) + rest) == Decode(acc + Weighted(w, n), WeightAfter(w, n), rest)
    decreases n
  {
    if n > 0 {
      var d := if n % 2 == 1 then 1 else 2;
      var m := (n - d) / 2;
      DecodeWeighted(acc + (if d == 1 then w else 2 * w), 2 * w, m, rest);
      DecodeDigit(acc, w, n, d, m, rest);
    } else {
      assert Digits(n) + rest == rest;
    }
  }

  /** Decoding the digits of `n` at weight `w` adds `w * n` zeros to the pending run. */
  lemma DecodeDigits(acc: nat, w: nat, n: nat, rest: seq<uint16>)
    ensures Decode(acc, w, Digits(n) + rest) == Decode(acc + w * n, WeightAfter(w, n), rest)
  {
    DecodeWeighted(acc, w, n, rest);
    WeightedIsProduct(w, n);
  }

  /** What a pending run and a non-digit symbol decode to, whatever the weight. */
  lemma DecodeLiteral(acc: nat, w: nat, x: uint16, rest: seq<uint16>)
    requires 2 <= x <= 256
    ensures Decode(acc, w, [x] + rest) == Repeat(0, acc) + ([x - 1] + Decode(0, 1, rest))
  {
    assert ([x] + rest)[1..] == rest;
  }

  /** A zero run's digits and the literal after them decode to the run and the byte. */
  lemma DecodeRunThenLiteral(count: nat, x: uint16, more: seq<uint16>, tail: seq<byte>)
    requires 2 <= x <= 256 && Decode(0, 1, more) == tail
    ensures Decode(0, 1, Digits(count) + ([x] + more)) == Repeat(0, count) + ([x - 1] + tail)
  {
    DecodeDigits(0, 1, count, [x] + more);
    DecodeLiteral(count, WeightAfter(1, count), x, more);
  }

  /** A zero byte only lengthens the pending run. */
  lemma DecodeZeroStep(count: nat, s: seq<byte>)
    requires s != [] && s[0] == 0
    requires Decode(0, 1, EncodeWide(count + 1, s[1..])) == Repeat(0, count + 1) + s[1..]
    ensures Decode(0, 1, EncodeWide(count, s)) == Repeat(0, count) + s
  {
    RepeatAdd(0, count, 1);
    AppendAssoc(Repeat(0, count), [0], s[1..]);
    assert [0] + s[1..] == s;
  }

  /** A nonzero byte closes the pending run and comes back after it. */
  lemma DecodeLiteralStep(count: nat, s: seq<byte>)
    requires s != [] && s[0] != 0
    requires Decode(0, 1, EncodeWide(0, s[1..])) == Repeat(0, 0) + s[1..]
    ensures Decode(0, 1, EncodeWide(count, s)) == Repeat(0, count) + s
  {
    var x := s[0] as uint16 + 1;
    var more := EncodeWide(0, s[1..]);
    assert EncodeWide(count, s) == Digits(count) + ([x] + more);
    assert Repeat(0, 0) + s[1..] == s[1..];
    DecodeRunThenLiteral(count, x, more, s[1..]);
    assert [s[0]] + s[1..] == s;
  }

  /** Decoding undoes the pass: the pending zeros come back, then the input. */
  lemma {:induction false} DecodeEncodeWide(count: nat, s: seq<byte>)
    ensures Decode(0, 1, EncodeWide(count, s)) == Repeat(0, count) + s
    decreases |s|
  {
    if s == [] {
      DecodeDigits(0, 1, count, []);
      assert Digits(count) + [] == Digits(count);
    } else if s[0] == 0 {
      DecodeEncodeWide(count + 1, s[1..]);
      DecodeZeroStep(count, s);
    } else {
      DecodeEncodeWide(0, s[1..]);
      DecodeLiteralStep(count, s);
    }
  }

  /** `rleMTF` is lossless once zero runs have an unbounded counter. */
  lemma EncodeWideRoundTrip(s: seq<byte>)
    ensures Decode(0, 1, EncodeWide(0, s)) == s
  {
    DecodeEncodeWide(0, s);
  }

  /** No zero run, counting the `count` zeros already pending, reaches 65536. */
  predicate RunsFit(count: nat, s: seq<byte>)
    decreases |s|
  {
    if s == [] then count < 0x1_0000
    else if s[0] == 0 then RunsFit(count + 1, s[1..])
    else count < 0x1_0000 && RunsFit(0, s[1..])
  }

  /** While zero runs fit the uint16 counter, `rleMTF` agrees with the unbounded pass. */
  lemma {:induction false} EncodeAgrees(count: uint16, s: seq<byte>)
    requires RunsFit(count, s)
    ensures Encode(count, s) == EncodeWide(count, s)
    decreases |s|
  {
    if s != [] {
      if s[0] == 0 {
        assert count + 1 < 0x1_0000 by {
          RunsFitPending(count + 1, s[1..]);
        }
        EncodeAgrees(count + 1, s[1..]);
      } else {
        EncodeAgrees(0, s[1..]);
      }
    }
  }

  /** The pending count itself must fit. */
  lemma {:induction false} RunsFitPending(count: nat, s: seq<byte>)
    requires RunsFit(count, s)
    ensures count < 0x1_0000
    decreases |s|
  {
    if s != [] && s[0] == 0 {
      RunsFitPending(count + 1, s[1..]);
    }
  }

  /** A block shorter than 65536 symbols has no run too long for the counter. */
  lemma {:induction false} ShortRunsFit(count: nat, s: seq<byte>)
    requires count + |s| < 0x1_0000
    ensures RunsFit(count, s)
    decreases |s|
  {
    if s != [] {
      if s[0] == 0 {
        ShortRunsFit(count + 1, s[1..]);
      } else {
        ShortRunsFit(0, s[1..]);
      }
    }
  }

  /** `rleMTF` as written is lossless when every zero run is shorter than 65536. */
  lemma EncodeRoundTrip(s: seq<byte>)
    requires RunsFit(0, s)
    ensures Decode(0, 1, Encode(0, s)) == s
  {
    EncodeAgrees(0, s);
    EncodeWideRoundTrip(s);
  }

  lemma ModStep(count: nat, n: nat)
    requires count < 0x1_0000 && n > 0
    ensures ((count + 1) % 0x1_0000 + (n - 1)) % 0x1_0000 == (count + n) % 0x1_0000
  {
    if count + 1 == 0x1_0000 {
      var q, r := (n - 1) / 0x1_0000, (n - 1) % 0x1_0000;
      DivUnique(count + n, 0x1_0000, q + 1, r);
    }
  }

  /** `n` zeros advance the uint16 counter by `n`, modulo 65536. */
  lemma {:induction false} EncodeZeros(count: uint16, n: nat, rest: seq<byte>)
    ensures Encode(count, Repeat(0, n) + rest) == Encode((count + n) % 0x1_0000, rest)
    decreases n
  {
    if n > 0 {
      var tail := Repeat(0, n - 1) + rest;
      AppendAssoc([0], Repeat(0, n - 1), rest);
      assert ([0] + tail)[0] == 0 && ([0] + tail)[1..] == tail;
      EncodeZeros((count + 1) % 0x1_0000, n - 1, rest);
      ModStep(count, n);
    } else {
      assert Repeat(0, 0) + rest == rest;
    }
  }

  /**
   * A zero run whose length is a multiple of 65536 wraps the uint16
   * counter back to 0 and leaves no digits: such a run followed by a 1
   * encodes as the single symbol 2, which decodes to just the 1.
   */
  lemma LongRunVanishes(n: nat)
    requires n > 0 && n % 0x1_0000 == 0
    ensures Encode(0, Repeat(0, n) + [1]) == [2]
    ensures Decode(0, 1, [2]) == [1]
  {
    EncodeZeros(0, n, [1]);
    assert [1][1..] == [];
    assert Encode(0, [1]) == Digits(0) + ([2] + Encode(0, []));
  }

  /** `rleMTF` (encoder.go): appends digits for each zero run and `c + 1` for every other byte. */
  method RleMtf(input: seq<byte>) returns (out: seq<uint16>)
    ensures out == Encode(0, input)
  {
    var count: uint16 := 0;
    out := [];
    var k := 0;
    ghost var target := Encode(0, input);
    while k < |input|
      invariant 0 <= k <= |input|
      invariant out + Encode(count, input[k..]) == target
    {
      var c := input[k];
      ghost var rest := input[k..];
      assert rest[0] == c && rest[1..] == input[k + 1..];
      if c == 0 {
        ZeroInvariant(out, count, rest, target);
        count := (count + 1) % 0x1_0000;
      } else {
        var ds, left := EmitRun(count);
        LiteralInvariant(out, count, ds, rest, target);
        count := left;
        if count != 0 {
          assert false;
        }
        var x: uint16 := c as uint16 + 1;
        out := out + ds + [x];
      }
      k := k + 1;
    }
    var ds, left := EmitRun(count);
    assert input[k..] == [];
    out := out + ds;
  }

  /** The loop invariant of `RleMtf` across a zero byte. */
  lemma ZeroInvariant(out: seq<uint16>, count: uint16, rest: seq<byte>, target: seq<uint16>)
    requires rest != [] && rest[0] == 0 && out + Encode(count, rest) == target
    ensures out + Encode((count + 1) % 0x1_0000, rest[1..]) == target
  {
  }

  /** The loop invariant of `RleMtf` across a nonzero byte, once the pending run is emitted. */
  lemma LiteralInvariant(out: seq<uint16>, count: uint16, ds: seq<uint16>, rest: seq<byte>, target: seq<uint16>)
    requires rest != [] && rest[0] != 0 && ds == Digits(count)
    requires out + Encode(count, rest) == target
    ensures out + ds + [rest[0] as uint16 + 1] + Encode(0, rest[1..]) == target
  {
    var x := rest[0] as uint16 + 1;
    var more := Encode(0, rest[1..]);
    AppendAssoc(out, ds, [x] + more);
    AppendAssoc(out + ds, [x], more);
  }

  /** The example of writer_test.go: five zeros, a 1, one zero. */
  lemma RleMtfExample()
    ensures Encode(0, [0, 0, 0, 0, 0, 1, 0]) == [Bzip2.RunA, Bzip2.RunB, 2, Bzip2.RunA]
  {
    var s: seq<byte> := [0, 0, 0, 0, 0, 1, 0];
    assert s == Repeat(0, 5) + [1, 0];
    EncodeZeros(0, 5, [1, 0]);
    assert Digits(5) == [Bzip2.RunA, Bzip2.RunB];
    assert Encode(0, [0]) == Digits(1) == [Bzip2.RunA];
    assert Encode(5, [1, 0]) == Digits(5) + ([2] + Encode(0, [0]));
  }
}
