/**
 * The package-level pieces of writer.go that are not goroutine plumbing:
 * the zero-run marker constants, the pre-BWT run-length pass `rle` and the
 * guarded block-size setter of the stream writer.
 */
module Bzip2 {
  import opened Bytes

  /** Markers of the bijective base-2 zero-run numerals. */
  const RunA: uint16 := 0
  const RunB: uint16 := 1

  // ---------------------------------------------------------------------
  // Pre-BWT run-length pass
  // ---------------------------------------------------------------------

  /**
   * Where `rle` closes the run that starts at `s`, scanning from `i`: at the
   * first position whose byte differs from its predecessor, or when the run
   * has reached 255 bytes, or at the end of the input (a trailing run).
   */
  function RunEnd(data: seq<byte>, s: nat, i: nat): (e: nat)
    requires s < i <= |data|
    requires i - s <= 255
    ensures i <= e <= |data| && e - s <= 255
    ensures e < |data| ==> data[e] != data[e - 1] || e - s == 255
    decreases |data| - i
  {
    if i == |data| || data[i] != data[i - 1] || i - s == 255 then i else RunEnd(data, s, i + 1)
  }

  /** The bytes `rle` emits for the closed run `data[s..e]`. */
  function EncodeRun(data: seq<byte>, s: nat, e: nat): seq<byte>
    requires s < e <= |data| && e - s <= 255
  {
    if e - s >= 4 then data[e - 4..e] + [e - s - 4] else data[s..e]
  }

  /**
   * The output for the runs from `s` on, and the start of the trailing run,
   * which `rle` never closes.
   */
  function RleFrom(data: seq<byte>, s: nat): (r: (seq<byte>, nat))
    requires s < |data|
    ensures s <= r.1 < |data|
    decreases |data| - s
  {
    var e := RunEnd(data, s, s + 1);
    if e == |data| then ([], s)
    else
      var rest := RleFrom(data, e);
      (EncodeRun(data, s, e) + rest.0, rest.1)
  }

  /** What `rle` returns: the encoded closed runs and the leftovers. */
  function RleSpec(data: seq<byte>): (seq<byte>, seq<byte>)
  {
    if |data| == 0 then ([], [])
    else
      var r := RleFrom(data, 0);
      (r.0, data[r.1 + 1..])
  }

  /** Every byte of `data[s..i]` equals the first: the run has not been cut. */
  ghost predicate NoCut(data: seq<byte>, s: nat, i: nat)
    requires s < i <= |data|
  {
    forall k :: s <= k < i ==> data[k] == data[s]
  }

  /** A run holds one byte value up to where `rle` closes it. */
  lemma {:induction false} RunEndAgrees(data: seq<byte>, s: nat, i: nat)
    requires s < i <= |data| && i - s <= 255 && NoCut(data, s, i)
    ensures NoCut(data, s, RunEnd(data, s, i))
    decreases |data| - i
  {
    if RunEnd(data, s, i) != i {
      assert data[i] == data[i - 1];
      RunEndAgrees(data, s, i + 1);
    }
  }

  /** Scanning may start anywhere inside a run that has not been cut yet. */
  lemma {:induction false} RunEndSkips(data: seq<byte>, s: nat, i: nat)
    requires s < i <= |data| && i - s <= 255 && NoCut(data, s, i)
    ensures RunEnd(data, s, s + 1) == RunEnd(data, s, i)
    decreases i - s
  {
    if i > s + 1 {
      RunEndSkips(data, s, i - 1);
    }
  }

  /** A run closes at the first byte change. */
  lemma RunEndAt(data: seq<byte>, s: nat, e: nat)
    requires s < e < |data| && e - s <= 255
    requires NoCut(data, s, e) && data[e] != data[e - 1]
    ensures RunEnd(data, s, s + 1) == e
  {
    RunEndSkips(data, s, e);
  }

  /** Closing the run `data[s..i]` at `i` emits its encoding before the rest. */
  lemma RleFromCut(data: seq<byte>, s: nat, i: nat)
    requires s < i < |data| && i - s <= 255 && NoCut(data, s, i)
    requires data[i] != data[i - 1] || i - s == 255
    ensures RleFrom(data, s).0 == EncodeRun(data, s, i) + RleFrom(data, i).0
    ensures RleFrom(data, s).1 == RleFrom(data, i).1
  {
    RunEndSkips(data, s, i);
  }

  /**
   * The state of the loop of `rle` when it reaches position `i`: the
   * output so far and the start of the run still open. It closes runs
   * left to right, where RleFrom describes them right to left.
   */
  function RleState(data: seq<byte>, i: nat): (r: (seq<byte>, nat))
    requires 1 <= i <= |data|
    ensures r.1 < i && i - r.1 <= 255
    decreases i
  {
    if i == 1 then ([], 0) else RleNext(data, i - 1, RleState(data, i - 1))
  }

  /** One iteration of the loop of `rle` at position `j`: close the open run or extend it. */
  function RleNext(data: seq<byte>, j: nat, prev: (seq<byte>, nat)): (r: (seq<byte>, nat))
    requires prev.1 < j < |data| && j - prev.1 <= 255
    ensures r.1 <= j && j + 1 - r.1 <= 255
  {
    if data[j] != data[j - 1] || j - prev.1 == 255 then (prev.0 + EncodeRun(data, prev.1, j), j)
    else prev
  }

  /** Closing one more run keeps the output a prefix of the specified one. */
  lemma RleCut(data: seq<byte>, s: nat, i: nat, out: seq<byte>)
    requires s < i < |data| && i - s <= 255 && NoCut(data, s, i)
    requires data[i] != data[i - 1] || i - s == 255
    requires RleFrom(data, 0).0 == out + RleFrom(data, s).0
    requires RleFrom(data, 0).1 == RleFrom(data, s).1
    ensures RleFrom(data, 0).0 == (out + EncodeRun(data, s, i)) + RleFrom(data, i).0
    ensures RleFrom(data, 0).1 == RleFrom(data, i).1
  {
    RleFromCut(data, s, i);
    AppendAssoc(out, EncodeRun(data, s, i), RleFrom(data, i).0);
  }

  /** The invariant of the loop of `rle`: the open run is uncut and the output is a prefix of the specified one. */
  ghost predicate RleSound(data: seq<byte>, i: nat, st: (seq<byte>, nat))
    requires st.1 < i <= |data|
  {
    NoCut(data, st.1, i) &&
    RleFrom(data, 0).0 == st.0 + RleFrom(data, st.1).0 &&
    RleFrom(data, 0).1 == RleFrom(data, st.1).1
  }

  /** One iteration of the loop keeps its invariant. */
  lemma RleNextSound(data: seq<byte>, j: nat, prev: (seq<byte>, nat))
    requires prev.1 < j < |data| && j - prev.1 <= 255
    requires RleSound(data, j, prev)
    ensures RleSound(data, j + 1, RleNext(data, j, prev))
  {
    if data[j] != data[j - 1] || j - prev.1 == 255 {
      RleCut(data, prev.1, j, prev.0);
    } else {
      assert data[j] == data[j - 1] == data[prev.1];
    }
  }

  /** The invariant holds before the first iteration. */
  lemma RleStartSound(data: seq<byte>)
    requires 1 <= |data|
    ensures RleSound(data, 1, ([], 0))
  {
    assert [] + RleFrom(data, 0).0 == RleFrom(data, 0).0;
  }

  /**
   * At every position the loop has emitted exactly the runs that the
   * specification closes before the open run, and that run is uncut.
   */
  lemma {:induction false} RleStateSound(data: seq<byte>, i: nat)
    requires 1 <= i <= |data|
    ensures RleSound(data, i, RleState(data, i))
    decreases i
  {
    if i == 1 {
      RleStartSound(data);
    } else {
      var prev := RleState(data, i - 1);
      RleStateSound(data, i - 1);
      RleNextSound(data, i - 1, prev);
      assert RleState(data, i) == RleNext(data, i - 1, prev);
    }
  }

  /** An uncut run that reaches the end of the input is the trailing run. */
  lemma RleFromTrailingRun(data: seq<byte>, s: nat)
    requires s < |data| && |data| - s <= 255 && NoCut(data, s, |data|)
    ensures RleFrom(data, s) == ([], s)
  {
    RunEndSkips(data, s, |data|);
  }

  /** `rle` returns what the specification says once its loop has run to the end. */
  lemma RleDone(data: seq<byte>, out: seq<byte>, s: nat)
    requires s < |data| && |data| - s <= 255 && RleSound(data, |data|, (out, s))
    ensures RleSpec(data) == (out, data[s + 1..])
  {
    RleFromTrailingRun(data, s);
    assert RleFrom(data, 0).0 == out + [];
    assert out + [] == out;
  }

  /** `rle` (writer.go): one pass with a byte-sized run counter. */
  method Rle(data: seq<byte>) returns (out: seq<byte>, leftovers: seq<byte>)
    ensures (out, leftovers) == RleSpec(data)
  {
    var count: byte := 0;
    out := [];
    if |data| == 0 {
      // The loop below does not run and the leftovers slice is empty.
      return out, [];
    }
    ghost var s: nat := 0;
    var i := 1;
    while i < |data|
      invariant 1 <= i <= |data|
      invariant (out, s) == RleState(data, i) && count == i - 1 - s
    {
      count := count + 1;
      if data[i] != data[i - 1] || count == 255 {
        if count >= 4 {
          out := out + (data[i - 4..i] + [count - 4]);
        } else {
          out := out + data[i - count..i];
        }
        count := 0;
        s := i;
      }
      i := i + 1;
    }
    leftovers := data[|data| - count..];
    RleStateSound(data, |data|);
    RleDone(data, out, s);
  }

  // ---------------------------------------------------------------------
  // The decoder that inverts the pre-BWT pass (bzip2's run-length stage 1)
  // ---------------------------------------------------------------------

  /** Decoder state: the last literal and how many equal literals in a row (0..4) precede. */
  datatype DecState = DecState(last: byte, seen: nat)

  const Fresh := DecState(0, 0)

  /** One input byte: after four equal literals, the next byte is a repeat count. */
  function Step(st: DecState, b: byte): (DecState, seq<byte>)
  {
    if st.seen == 4 then (Fresh, Repeat(st.last, b))
    else if st.seen > 0 && b == st.last then (DecState(b, st.seen + 1), [b])
    else (DecState(b, 1), [b])
  }

  function Feed(st: DecState, s: seq<byte>): (DecState, seq<byte>)
    decreases |s|
  {
    if s == [] then (st, [])
    else
      var first := Step(st, s[0]);
      var rest := Feed(first.0, s[1..]);
      (rest.0, first.1 + rest.1)
  }

  /** Decoding of a whole run-length-encoded byte string. */
  function Unrle(s: seq<byte>): seq<byte>
  {
    Feed(Fresh, s).1
  }

  /** A state in which a run of `v` starts afresh. */
  predicate StartsRun(st: DecState, v: byte)
  {
    st.seen == 0 || (st.seen < 4 && st.last != v)
  }

  lemma {:induction false} FeedConcat(st: DecState, a: seq<byte>, b: seq<byte>)
    ensures Feed(st, a + b) == (Feed(Feed(st, a).0, b).0, Feed(st, a).1 + Feed(Feed(st, a).0, b).1)
    decreases |a|
  {
    if a == [] {
      assert a + b == b;
      assert Feed(st, a) == (st, []);
      assert [] + Feed(st, b).1 == Feed(st, b).1;
    } else {
      var first := Step(st, a[0]);
      assert (a + b)[0] == a[0] && (a + b)[1..] == a[1..] + b;
      FeedConcat(first.0, a[1..], b);
      var mid := Feed(first.0, a[1..]);
      var tail := Feed(mid.0, b);
      assert first.1 + (mid.1 + tail.1) == (first.1 + mid.1) + tail.1;
    }
  }

  lemma {:induction false} FeedLiterals(v: byte, m: nat, k: nat)
    requires 1 <= m && m + k <= 4
    ensures Feed(DecState(v, m), Repeat(v, k)) == (DecState(v, m + k), Repeat(v, k))
    decreases k
  {
    if k > 0 {
      FeedLiterals(v, m + 1, k - 1);
    }
  }

  /** An uncut run is its first byte repeated. */
  lemma RunConstant(data: seq<byte>, s: nat, e: nat)
    requires s < e <= |data| && NoCut(data, s, e)
    ensures data[s..e] == Repeat(data[s], e - s)
  {
    var r := Repeat(data[s], e - s);
    forall k | 0 <= k < e - s
      ensures data[s..e][k] == r[k]
    {
      assert data[s + k] == data[s];
      RepeatAt(data[s], e - s, k);
    }
  }

  /** Decoding one encoded run gives the run back. */
  lemma FeedRun(st: DecState, v: byte, len: nat)
    requires 1 <= len <= 259 && StartsRun(st, v)
    ensures len >= 4 ==> Feed(st, Repeat(v, 4) + [len - 4]) == (Fresh, Repeat(v, len))
    ensures len < 4 ==> Feed(st, Repeat(v, len)) == (DecState(v, len), Repeat(v, len))
  {
    var k := if len >= 4 then 4 else len;
    var lits := Repeat(v, k);
    assert lits == [v] + Repeat(v, k - 1);
    assert lits[0] == v && lits[1..] == Repeat(v, k - 1);
    assert Step(st, v) == (DecState(v, 1), [v]);
    FeedLiterals(v, 1, k - 1);
    assert Feed(st, lits) == (DecState(v, k), [v] + Repeat(v, k - 1));
    if len >= 4 {
      FeedConcat(st, lits, [len - 4]);
      var c: seq<byte> := [len - 4];
      assert c[0] == len - 4 && c[1..] == [];
      assert Feed(DecState(v, 4), c) == (Fresh, Repeat(v, len - 4) + []);
      assert Repeat(v, len - 4) + [] == Repeat(v, len - 4);
      RepeatAdd(v, 4, len - 4);
      assert Feed(st, lits + c) == (Fresh, lits + Repeat(v, len - 4));
    }
  }

  /** Decoding the encoding of the closed run `data[s..e]` gives the run. */
  lemma FeedEncodeRun(data: seq<byte>, s: nat, st: DecState)
    requires s < |data| && StartsRun(st, data[s])
    requires RunEnd(data, s, s + 1) < |data|
    ensures var e := RunEnd(data, s, s + 1);
      Feed(st, EncodeRun(data, s, e)) == (if e - s >= 4 then Fresh else DecState(data[s], e - s), data[s..e])
    ensures var e := RunEnd(data, s, s + 1);
      StartsRun(if e - s >= 4 then Fresh else DecState(data[s], e - s), data[e])
  {
    var e := RunEnd(data, s, s + 1);
    var v := data[s];
    RunEndAgrees(data, s, s + 1);
    RunConstant(data, s, e);
    EncodeRunConstant(data, s, e);
    FeedRun(st, v, e - s);
  }

  /** Decoding a concatenation whose first part ends in state `next`. */
  lemma FeedThen(st: DecState, enc: seq<byte>, next: DecState, more: seq<byte>, a: seq<byte>, b: seq<byte>)
    requires Feed(st, enc) == (next, a) && Feed(next, more).1 == b
    ensures Feed(st, enc + more).1 == a + b
  {
    FeedConcat(st, enc, more);
  }

  /** Adjacent slices join. */
  lemma SliceJoin(data: seq<byte>, s: nat, e: nat, t: nat)
    requires s <= e <= t <= |data|
    ensures data[s..e] + data[e..t] == data[s..t]
  {
  }

  /** Decoding what `rle` emits from `s` on gives back the closed runs. */
  lemma {:induction false} RleFromDecodes(data: seq<byte>, s: nat, st: DecState)
    requires s < |data| && StartsRun(st, data[s])
    ensures Feed(st, RleFrom(data, s).0).1 == data[s..RleFrom(data, s).1]
    decreases |data| - s
  {
    var e := RunEnd(data, s, s + 1);
    if e < |data| {
      var next := if e - s >= 4 then Fresh else DecState(data[s], e - s);
      var rest := RleFrom(data, e);
      FeedEncodeRun(data, s, st);
      RleFromDecodes(data, e, next);
      FeedThen(st, EncodeRun(data, s, e), next, rest.0, data[s..e], data[e..rest.1]);
      SliceJoin(data, s, e, rest.1);
    }
  }

  /**
   * What `rle` loses: decoding its output gives every closed run, the
   * leftovers give all but the first byte of the trailing run, and that one
   * byte is in neither.
   */
  lemma RleDropsOneByte(data: seq<byte>)
    requires |data| > 0
    ensures var (out, leftovers) := RleSpec(data);
      |leftovers| < |data| &&
      Unrle(out) + [data[|data| - |leftovers| - 1]] + leftovers == data
  {
    RleFromDecodes(data, 0, Fresh);
    var t := RleFrom(data, 0).1;
    assert data == data[..t] + [data[t]] + data[t + 1..];
  }

  /** The leftovers are bounded because runs are cut at 255 bytes. */
  lemma RleLeftoversBound(data: seq<byte>)
    ensures |RleSpec(data).1| <= 254
  {
    if |data| > 0 {
      var t := RleFrom(data, 0).1;
      RleFromTrailing(data, 0);
    }
  }

  /** The trailing run starts within 255 bytes of the end. */
  lemma {:induction false} RleFromTrailing(data: seq<byte>, s: nat)
    requires s < |data|
    ensures |data| - RleFrom(data, s).1 <= 255
    decreases |data| - s
  {
    var e := RunEnd(data, s, s + 1);
    if e < |data| {
      RleFromTrailing(data, e);
    }
  }

  /**
   * What `rle` evidently intends: the whole trailing run is carried over,
   * so that nothing is lost.
   */
  function RleKeepingRun(data: seq<byte>): (r: (seq<byte>, seq<byte>))
    ensures Unrle(r.0) + r.1 == data
    ensures |r.1| <= 255
  {
    if |data| == 0 then ([], [])
    else
      RleFromDecodes(data, 0, Fresh);
      RleFromTrailing(data, 0);
      var t := RleFrom(data, 0).1;
      assert data == data[..t] + data[t..];
      (RleFrom(data, 0).0, data[t..])
  }

  /** The input of the example in writer_test.go: "AAAAAAABBBBCCCDEE". */
  function RleExampleInput(): seq<byte>
  {
    [65, 65, 65, 65, 65, 65, 65, 66, 66, 66, 66, 67, 67, 67, 68, 69, 69]
  }

  /** The run starting at `s` closes at `e`, before the end of the input. */
  lemma RleFromStep(data: seq<byte>, s: nat, e: nat)
    requires s < e < |data| && e - s <= 255
    requires NoCut(data, s, e) && data[e] != data[e - 1]
    ensures RleFrom(data, s) == (EncodeRun(data, s, e) + RleFrom(data, e).0, RleFrom(data, e).1)
  {
    RunEndAt(data, s, e);
  }

  /** The encoding of an uncut run depends only on its byte and its length. */
  lemma EncodeRunConstant(data: seq<byte>, s: nat, e: nat)
    requires s < e <= |data| && e - s <= 255 && NoCut(data, s, e)
    ensures EncodeRun(data, s, e) == if e - s >= 4 then Repeat(data[s], 4) + [e - s - 4] else Repeat(data[s], e - s)
  {
    var k := if e - s >= 4 then 4 else e - s;
    var lits := Repeat(data[s], k);
    forall j | 0 <= j < k
      ensures data[e - k..e][j] == lits[j]
    {
      assert data[e - k + j] == data[s];
      RepeatAt(data[s], k, j);
    }
    assert data[e - k..e] == lits;
  }

  /** The run `data[s..e]` is closed by a byte change and emitted as its byte and length. */
  lemma RleFromRun(data: seq<byte>, s: nat, e: nat)
    requires s < e < |data| && e - s <= 255
    requires NoCut(data, s, e) && data[e] != data[e - 1]
    ensures RleFrom(data, s).0
         == (if e - s >= 4 then Repeat(data[s], 4) + [e - s - 4] else Repeat(data[s], e - s)) + RleFrom(data, e).0
    ensures RleFrom(data, s).1 == RleFrom(data, e).1
  {
    RleFromStep(data, s, e);
    EncodeRunConstant(data, s, e);
  }

  /** The runs of the example: seven 'A', four 'B', three 'C', one 'D', two 'E'. */
  ghost predicate RleExampleShape(data: seq<byte>)
  {
    |data| == 17 &&
    NoCut(data, 0, 7) && data[7] != data[6] && data[0] == 65 &&
    NoCut(data, 7, 11) && data[11] != data[10] && data[7] == 66 &&
    NoCut(data, 11, 14) && data[14] != data[13] && data[11] == 67 &&
    NoCut(data, 14, 15) && data[15] != data[14] && data[14] == 68 &&
    NoCut(data, 15, 17) && data[16] == 69
  }

  lemma RleExampleCuts(data: seq<byte>)
    requires data == RleExampleInput()
    ensures RleExampleShape(data)
  {
  }

  /** The encoded runs of the example, written out. */
  lemma RleExampleRuns()
    ensures Repeat(65, 4) + [3] == [65, 65, 65, 65, 3]
    ensures Repeat(66, 4) + [0] == [66, 66, 66, 66, 0]
    ensures Repeat(67, 3) == [67, 67, 67]
  {
  }

  lemma RleExampleTail(data: seq<byte>)
    requires RleExampleShape(data)
    ensures RleFrom(data, 11) == (Repeat(67, 3) + [68], 15)
  {
    RleFromTrailingRun(data, 15);
    RleFromRun(data, 14, 15);
    assert Repeat(68, 1) + [] == [68];
    RleFromRun(data, 11, 14);
  }

  lemma RleExampleHead(data: seq<byte>)
    requires RleExampleShape(data)
    ensures RleFrom(data, 0).0 == (Repeat(65, 4) + [3]) + ((Repeat(66, 4) + [0]) + RleFrom(data, 11).0)
    ensures RleFrom(data, 0).1 == RleFrom(data, 11).1
  {
    RleFromRun(data, 7, 11);
    RleFromRun(data, 0, 7);
  }

  /**
   * The example of writer_test.go. The closed runs encode as the test
   * expects; of the trailing "EE" only one "E" is left over.
   */
  lemma RleExample(data: seq<byte>)
    requires data == RleExampleInput()
    ensures RleSpec(data).0
         == [65, 65, 65, 65, 3] + [66, 66, 66, 66, 0] + [67, 67, 67] + [68]
    ensures RleSpec(data).1 == [69]
  {
    var r := RleFrom(data, 0);
    var a: seq<byte>, b: seq<byte>, c: seq<byte> := [65, 65, 65, 65, 3], [66, 66, 66, 66, 0], [67, 67, 67] + [68];
    assert r.0 == a + (b + c) && r.1 == 15 by {
      RleExampleCuts(data);
      RleExampleTail(data);
      RleExampleHead(data);
      RleExampleRuns();
    }
    AppendAssoc(a, b, c);
    assert data[16..] == [69];
    assert RleSpec(data) == (r.0, data[r.1 + 1..]);
  }

  // ---------------------------------------------------------------------
  // The stream writer's block-size setting
  // ---------------------------------------------------------------------

  datatype SetupError = WritingBegun | InvalidBlockSize

  /** The configuration fields of the stream `Writer` (writer.go). */
  class Writer {
    /** Block size in units of 100 000 bytes. */
    var blockSize: byte
    var headerWritten: bool

    /** The field values `NewWriter` starts from. */
    constructor ()
      ensures blockSize == 9 && !headerWritten
    {
      blockSize := 9;
      headerWritten := false;
    }

    /** `SetBlockSize`: accepted only before writing starts and only for 1..9. */
    method SetBlockSize(n: int) returns (err: Option<SetupError>)
      modifies this`blockSize
      ensures headerWritten ==> err == Some(WritingBegun) && blockSize == old(blockSize)
      ensures !headerWritten && (n < 1 || n > 9) ==> err == Some(InvalidBlockSize) && blockSize == old(blockSize)
      ensures !headerWritten && 1 <= n <= 9 ==> err == None && blockSize == n
    {
      if headerWritten {
        return Some(WritingBegun);
      }
      if n < 1 || n > 9 {
        return Some(InvalidBlockSize);
      }
      blockSize := n;
      return None;
    }
  }

  datatype Option<T> = None | Some(value: T)
}
