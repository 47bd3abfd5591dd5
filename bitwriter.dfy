// The bit-level output buffer of bit/bitwriter.go: bits are packed
// most-significant first into a fixed byte cache that is handed to the
// underlying writer when it fills up, and once more on Close.

module Bits {
  import opened Bytes

  /** Size of the cache in bytes, and also (as the source uses it) the
   *  number of bits after which the cache is flushed. */
  const Capacity: nat := 1024

  /** Outcome of a writer operation. `Panic` stands for the Go runtime
   *  panic of an out-of-range slice index: the program stops there. */
  datatype Status = Ok | ErrClosed | ErrTooManyBits(count: nat) | Panic

  /** The byte with only bit `p` set, counting from the most significant bit. */
  function Mask(p: nat): bv8
    requires p < 8
  {
    if p == 0 then 0x80 else if p == 1 then 0x40 else if p == 2 then 0x20 else if p == 3 then 0x10
    else if p == 4 then 0x08 else if p == 5 then 0x04 else if p == 6 then 0x02 else 0x01
  }

  /** Bit `p` of `x`, counting from the most significant bit (p == 0). */
  predicate BitAt(x: bv8, p: nat)
    requires p < 8
  {
    x & Mask(p) != 0
  }

  /** The first `n` bits held in the byte sequence `c`, most significant first. */
  ghost function CacheBits(c: seq<bv8>, n: nat): (r: seq<bool>)
    requires n <= 8 * |c|
    ensures |r| == n
  {
    if n == 0 then [] else CacheBits(c, n - 1) + [BitAt(c[(n - 1) / 8], (n - 1) % 8)]
  }

  /** Bit `k` of the cache is bit `k % 8` of byte `k / 8`. */
  lemma {:induction false} CacheBitAt(c: seq<bv8>, n: nat, k: nat)
    requires n <= 8 * |c| && k < n
    ensures CacheBits(c, n)[k] == BitAt(c[k / 8], k % 8)
  {
    if k < n - 1 {
      CacheBitAt(c, n - 1, k);
    }
  }

  /** All bits of a byte sequence, most significant bit of each byte first. */
  ghost function BytesBits(s: seq<bv8>): (r: seq<bool>)
    ensures |r| == 8 * |s|
  {
    CacheBits(s, 8 * |s|)
  }

  function Zeros(n: nat): (r: seq<bool>)
    ensures |r| == n
    ensures forall k :: 0 <= k < n ==> !r[k]
  {
    seq(n, _ => false)
  }

  /** The `n` low bits of `v`, most significant first. */
  function BitsOf(v: nat, n: nat): (r: seq<bool>)
    ensures |r| == n
  {
    if n == 0 then [] else BitsOf(v / 2, n - 1) + [v % 2 == 1]
  }

  /** `b << (7 - pos)`, written out per position so that each shift is by a constant. */
  function Place(b: bv8, pos: nat): bv8
    requires pos < 8
  {
    if pos == 0 then b << 7 else if pos == 1 then b << 6 else if pos == 2 then b << 5 else if pos == 3 then b << 4
    else if pos == 4 then b << 3 else if pos == 5 then b << 2 else if pos == 6 then b << 1 else b
  }

  /** The bits of `v` from position `count - 1` down to position `c`,
   *  most significant first: what WriteBits32 has written while its
   *  counter has come down from `count` to `c`. */
  function HighBits(v: nat, count: nat, c: nat): (r: seq<bool>)
    requires c <= count
    ensures |r| == count - c
  {
    BitsOf(Shr(v, c), count - c)
  }

  /** Writing the bit of `v` at position `c - 1` after those above it
   *  extends the written high bits of `v` by one. */
  lemma NextBit(start: seq<bool>, v: nat, count: nat, c: nat, c': nat, bit: bool)
    requires 1 <= c <= count && c' == c - 1 && bit == (Shr(v, c') % 2 == 1)
    ensures start + HighBits(v, count, c) + [bit] == start + HighBits(v, count, c')
  {
    assert BitsOf(Shr(v, c'), count - c') == BitsOf(Shr(v, c), count - c) + [bit];
  }

  /** The bits of `v` written before the cache runs full. */
  lemma PanicPrefix(start: seq<bool>, v: nat, count: nat, c: nat, b0: nat)
    requires c <= count && b0 + count - Capacity == c
    ensures start + HighBits(v, count, c) == start + BitsOf(Shr(v, b0 + count - Capacity), Capacity - b0)
  {
  }

  /**
   * OR-ing `b << (7 - pos)` into a byte never changes the bits after
   * `pos`; when `b` is 0 or 1 it changes no bit except the one at `pos`,
   * which becomes set exactly when `b` is 1 (or it already was).
   */
  lemma OrBit(c: bv8, b: bv8, pos: nat)
    requires pos < 8
    ensures forall p :: pos < p < 8 ==> BitAt(c | Place(b, pos), p) == BitAt(c, p)
    ensures b <= 1 ==> (BitAt(c | Place(b, pos), pos) <==> BitAt(c, pos) || b == 1)
    ensures b <= 1 ==> forall p :: 0 <= p < pos ==> BitAt(c | Place(b, pos), p) == BitAt(c, p)
  {
  }

  /** Appending bytes appends their bits. */
  lemma BytesBitsAppend(a: seq<bv8>, b: seq<bv8>)
    ensures BytesBits(a + b) == BytesBits(a) + BytesBits(b)
  {
    var l, r := BytesBits(a + b), BytesBits(a) + BytesBits(b);
    forall k | 0 <= k < |l|
      ensures l[k] == r[k]
    {
      CacheBitAt(a + b, 8 * |a + b|, k);
      if k >= 8 * |a| {
        assert (k - 8 * |a|) / 8 == k / 8 - |a| && (k - 8 * |a|) % 8 == k % 8;
        CacheBitAt(b, 8 * |b|, k - 8 * |a|);
      } else {
        CacheBitAt(a, 8 * |a|, k);
      }
    }
  }

  /** Setting bit `n` of the cache (and nothing before it) extends its first `n` bits by one. */
  lemma CacheBitsStep(c: seq<bv8>, n: nat, x: bv8)
    requires n < 8 * |c|
    requires forall q :: 0 <= q < n % 8 ==> BitAt(x, q) == BitAt(c[n / 8], q)
    ensures CacheBits(c[n / 8 := x], n + 1) == CacheBits(c, n) + [BitAt(x, n % 8)]
  {
    var l, r := CacheBits(c[n / 8 := x], n), CacheBits(c, n);
    forall k | 0 <= k < n
      ensures l[k] == r[k]
    {
      CacheBitAt(c[n / 8 := x], n, k);
      CacheBitAt(c, n, k);
      if k / 8 == n / 8 {
        assert k % 8 < n % 8;
      }
    }
  }

  /** When every bit from position `n` on is clear, the first `m` bytes
   *  hold the first `n` bits followed by zeros. */
  lemma CacheBitsPadded(c: seq<bv8>, n: nat, m: nat)
    requires n <= 8 * m && m <= |c|
    requires ClearFrom(c, n)
    ensures BytesBits(c[..m]) == CacheBits(c, n) + Zeros(8 * m - n)
  {
    var l, r := BytesBits(c[..m]), CacheBits(c, n) + Zeros(8 * m - n);
    forall k | 0 <= k < 8 * m
      ensures l[k] == r[k]
    {
      CacheBitAt(c[..m], 8 * m, k);
      if k < n {
        CacheBitAt(c, n, k);
      } else {
        if k / 8 == n / 8 {
          TailClear(c[k / 8], n % 8, k % 8);
        } else {
          assert c[k / 8] == 0;
        }
      }
    }
  }

  /** The first `n` bits are the whole bytes before `n / 8` and then the
   *  first `n % 8` bits of the byte at `n / 8`. */
  lemma CacheBitsSplit(c: seq<bv8>, n: nat, d: seq<bv8>)
    requires n / 8 < |c| && 0 < |d| && d[0] == c[n / 8]
    ensures CacheBits(c, n) == BytesBits(c[..n / 8]) + CacheBits(d, n % 8)
  {
    var l, r := CacheBits(c, n), BytesBits(c[..n / 8]) + CacheBits(d, n % 8);
    forall k | 0 <= k < n
      ensures l[k] == r[k]
    {
      CacheBitAt(c, n, k);
      if k >= 8 * (n / 8) {
        assert k / 8 == n / 8 && (k - 8 * (n / 8)) / 8 == 0 && (k - 8 * (n / 8)) % 8 == k % 8;
        CacheBitAt(d, n % 8, k - 8 * (n / 8));
      } else {
        CacheBitAt(c[..n / 8], 8 * (n / 8), k);
      }
    }
  }

  /** The bits handed on as `s`, then the first `n` bits of the cache `c`. */
  ghost function StreamOf(s: seq<bv8>, c: seq<bv8>, n: nat): seq<bool>
    requires n <= 8 * |c|
  {
    BytesBits(s) + CacheBits(c, n)
  }

  /** The byte with bits `p` to 7 set, counting from the most significant bit. */
  function Tail(p: nat): bv8
    requires p < 8
  {
    if p == 0 then 0xFF else if p == 1 then 0x7F else if p == 2 then 0x3F else if p == 3 then 0x1F
    else if p == 4 then 0x0F else if p == 5 then 0x07 else if p == 6 then 0x03 else 0x01
  }

  /** Every bit of `c` at or after position `n` is clear. */
  ghost predicate ClearFrom(c: seq<bv8>, n: nat)
  {
    (n / 8 < |c| ==> c[n / 8] & Tail(n % 8) == 0)
    && forall i :: n / 8 < i < |c| ==> c[i] == 0
  }

  /** A byte whose bits from `q` on are clear has bit `p >= q` clear. */
  lemma TailClear(x: bv8, q: nat, p: nat)
    requires q <= p < 8 && x & Tail(q) == 0
    ensures !BitAt(x, p)
  {
  }

  /** ORing `b << (7 - pos)` into a byte clear from `pos` on leaves it clear from `pos + 1` on. */
  lemma OrKeepsTail(c: bv8, b: bv8, pos: nat)
    requires pos < 7 && c & Tail(pos) == 0
    ensures (c | Place(b, pos)) & Tail(pos + 1) == 0
  {
  }

  /** ORing bit `n` into a cache `c` that is clear from `n` on gives a
   *  cache `d` that is clear from `n + 1` on. */
  lemma WriteKeepsClear(c: seq<bv8>, n: nat, b: bv8, d: seq<bv8>, m: nat)
    requires n < 8 * |c| && ClearFrom(c, n)
    requires d == c[n / 8 := c[n / 8] | Place(b, n % 8)] && m == n + 1
    ensures ClearFrom(d, m)
  {
    var idx, pos := n / 8, n % 8;
    if pos < 7 {
      assert m / 8 == idx && m % 8 == pos + 1;
      OrKeepsTail(c[idx], b, pos);
    } else {
      assert m / 8 == idx + 1 && m % 8 == 0;
    }
  }

  /** ORing a 0 or 1 at position `pos` of a byte clear from `pos` on sets
   *  that bit to it and keeps the bits before it. */
  lemma OrAppends(c: bv8, b: bv8, pos: nat)
    requires pos < 8 && c & Tail(pos) == 0 && b <= 1
    ensures BitAt(c | Place(b, pos), pos) == (b == 1)
    ensures forall q :: 0 <= q < pos ==> BitAt(c | Place(b, pos), q) == BitAt(c, q)
  {
    OrBit(c, b, pos);
    TailClear(c, pos, pos);
  }

  /** Replacing byte `n / 8` of the cache by `x`, which agrees with it
   *  before bit `n % 8` and holds `bit` there, appends `bit` to the stream. */
  lemma WriteAppends(s: seq<bv8>, c: seq<bv8>, n: nat, x: bv8, bit: bool, d: seq<bv8>, m: nat)
    requires n < 8 * |c| && d == c[n / 8 := x] && m == n + 1
    requires BitAt(x, n % 8) == bit
    requires forall q :: 0 <= q < n % 8 ==> BitAt(x, q) == BitAt(c[n / 8], q)
    ensures StreamOf(s, d, m) == StreamOf(s, c, n) + [bit]
  {
    CacheBitsStep(c, n, x);
    AppendAssoc(BytesBits(s), CacheBits(c, n), [bit]);
  }

  /** One store of WriteBit: the cache stays clear past the new count and,
   *  for a bit value, the stream grows by exactly that bit. */
  lemma StoreStep(s: seq<bv8>, c: seq<bv8>, n: nat, b: bv8, d: seq<bv8>, m: nat)
    requires n < 8 * |c| && ClearFrom(c, n)
    requires d == c[n / 8 := c[n / 8] | Place(b, n % 8)] && m == n + 1
    ensures ClearFrom(d, m)
    ensures b <= 1 ==> StreamOf(s, d, m) == StreamOf(s, c, n) + [b == 1]
  {
    WriteKeepsClear(c, n, b, d, m);
    if b <= 1 {
      OrAppends(c[n / 8], b, n % 8);
      WriteAppends(s, c, n, c[n / 8] | Place(b, n % 8), b == 1, d, m);
    }
  }

  /**
   * Handing on the first `m` cache bytes after the stream written so far
   * gives that stream followed by `pad` zero bits of padding.
   */
  lemma HandOn(s: seq<bv8>, c: seq<bv8>, n: nat, m: nat, pad: nat)
    requires n <= 8 * m && m <= |c| && ClearFrom(c, n) && pad == 8 * m - n
    ensures BytesBits(s + c[..m]) == StreamOf(s, c, n) + Zeros(pad)
  {
    CacheBitsPadded(c, n, m);
    BytesBitsAppend(s, c[..m]);
    AppendAssoc(BytesBits(s), CacheBits(c, n), Zeros(pad));
  }

  /** Rounding `n` bits up to whole bytes adds fewer than eight bits. */
  lemma PadBits(n: nat)
    ensures n <= 8 * ((n + 7) / 8)
    ensures 8 * ((n + 7) / 8) - n == (8 - n % 8) % 8
  {
  }

  /** A cleared cache of `Capacity` bytes that starts with `t`. */
  function Cleared(t: bv8): (r: seq<bv8>)
    ensures |r| == Capacity && r[0] == t
    ensures forall i :: 0 < i < |r| ==> r[i] == 0
  {
    [t] + seq(Capacity - 1, _ => 0)
  }

  /** Restarting the cache with only its partly filled byte keeps it
   *  clear past the bits that byte holds. */
  lemma ClearedKeepsClear(c: seq<bv8>, n: nat, t: bv8)
    requires n / 8 < |c| && ClearFrom(c, n)
    requires t == (if n % 8 != 0 then c[n / 8] else 0)
    ensures ClearFrom(Cleared(t), n % 8)
  {
  }

  /**
   * Handing on the whole bytes of a cache and restarting it with only the
   * partly filled byte (or nothing) keeps the stream.
   */
  lemma ClearedKeepsStream(s: seq<bv8>, c: seq<bv8>, n: nat, t: bv8)
    requires n / 8 < |c| && ClearFrom(c, n)
    requires t == (if n % 8 != 0 then c[n / 8] else 0)
    ensures StreamOf(s + c[..n / 8], Cleared(t), n % 8) == StreamOf(s, c, n)
  {
    if n % 8 == 0 {
      assert Tail(0) == 0xFF;
      assert c[n / 8] == 0;
    }
    CacheBitsSplit(c, n, Cleared(t));
    BytesBitsAppend(s, c[..n / 8]);
    AppendAssoc(BytesBits(s), BytesBits(c[..n / 8]), CacheBits(Cleared(t), n % 8));
  }

  /**
   * The bit writer. `sink` is what has been handed to the underlying
   * io.Writer; `cache` is the cache slice, which the methods re-slice.
   */
  class Writer {
    var sink: seq<bv8>
    var cache: seq<bv8>
    var bitsUnflushed: nat
    var closed: bool

    /** The state between calls: a full-length cache holding at most
     *  `Capacity` bits, nothing set past them. */
    ghost predicate Valid()
      reads this
    {
      |cache| == Capacity && bitsUnflushed <= Capacity && ClearFrom(cache, bitsUnflushed)
    }

    /** Every bit written so far, in order: those handed on, then those cached. */
    ghost function Stream(): seq<bool>
      reads this
      requires Valid()
    {
      StreamOf(sink, cache, bitsUnflushed)
    }

    /** NewWriter: an empty, zeroed cache of `Capacity` bytes. */
    constructor ()
      ensures Valid()
      ensures sink == [] && bitsUnflushed == 0 && !closed
      ensures Stream() == []
    {
      sink := [];
      cache := seq(Capacity, _ => 0);
      bitsUnflushed := 0;
      closed := false;
    }

    /**
     * flush, as written. It is only reached with a full cache, where it
     * hands on all `Capacity` bytes although only `Capacity / 8` of them
     * hold bits, and leaves an empty cache slice behind. With a bit count
     * that is not a whole number of bytes, it keeps back the last byte
     * of the slice and then stores it into the empty slice, which panics.
     */
    method Flush() returns (st: Status)
      requires Valid()
      modifies this
      ensures old(bitsUnflushed) == 0 ==> st == Ok && unchanged(this)
      ensures old(bitsUnflushed) > 0 ==>
        sink == old(sink) + old(cache)[..if old(bitsUnflushed) % 8 == 0 then Capacity else Capacity - 1]
        && cache == [] && bitsUnflushed == old(bitsUnflushed) % 8 && closed == old(closed)
        && st == (if old(bitsUnflushed) % 8 == 0 then Ok else Panic)
      ensures old(bitsUnflushed) > 0 && old(bitsUnflushed) % 8 == 0 ==>
        BytesBits(sink) == old(Stream()) + Zeros(8 * Capacity - old(bitsUnflushed))
    {
      if bitsUnflushed == 0 {
        return Ok;
      }
      ghost var c, n := cache, bitsUnflushed;
      bitsUnflushed := bitsUnflushed % 8;
      var tmp: bv8 := 0;
      if bitsUnflushed != 0 {
        tmp := cache[|cache| - 1];
        cache := cache[..|cache| - 1];
      } else {
        assert c[..|cache|] == cache;
        HandOn(sink, c, n, |cache|, 8 * Capacity - n);
      }
      sink := sink + cache;
      cache := cache[..0];
      if bitsUnflushed != 0 {
        // storing `tmp` at index 0 of the now empty cache slice
        return Panic;
      }
      return Ok;
    }

    /**
     * WriteBit: ORs `b`, shifted to the next bit position, into the cache.
     * A closed writer refuses. On a full cache the flush empties the slice
     * and the store into it panics, so the 1025th bit never arrives.
     */
    method WriteBit(b: bv8) returns (st: Status)
      requires Valid()
      modifies this
      ensures old(closed) ==> st == ErrClosed && unchanged(this)
      ensures !old(closed) && old(bitsUnflushed) < Capacity ==>
        st == Ok && Valid() && sink == old(sink) && !closed
        && bitsUnflushed == old(bitsUnflushed) + 1
        && cache == old(cache[bitsUnflushed / 8 := cache[bitsUnflushed / 8] | Place(b, bitsUnflushed % 8)])
      ensures !old(closed) && old(bitsUnflushed) < Capacity && b <= 1 ==>
        Stream() == old(Stream()) + [b == 1]
      ensures !old(closed) && old(bitsUnflushed) == Capacity ==>
        st == Panic && sink == old(sink + cache) && cache == [] && bitsUnflushed == 0 && !closed
        && BytesBits(sink) == old(Stream()) + Zeros(8 * Capacity - Capacity)
    {
      if closed {
        return ErrClosed;
      }
      if bitsUnflushed == Capacity {
        // the modelled sink accepts every write, so the flush succeeds
        st := Flush();
        // index 0 of the now empty cache slice
        return Panic;
      }
      Store(b);
      return Ok;
    }

    /** The store of WriteBit into a cache with room left. */
    method Store(b: bv8)
      requires Valid() && bitsUnflushed < Capacity
      modifies this`bitsUnflushed, this`cache
      ensures Valid() && bitsUnflushed == old(bitsUnflushed) + 1
      ensures cache == old(cache[bitsUnflushed / 8 := cache[bitsUnflushed / 8] | Place(b, bitsUnflushed % 8)])
      ensures b <= 1 ==> Stream() == old(Stream()) + [b == 1]
    {
      var idx := bitsUnflushed / 8;
      var bitPos := bitsUnflushed % 8;
      ghost var c, n := cache, bitsUnflushed;
      cache := cache[idx := cache[idx] | Place(b, bitPos)];
      bitsUnflushed := bitsUnflushed + 1;
      StoreStep(sink, c, n, b, cache, bitsUnflushed);
    }

    /**
     * WriteBits32: writes the `count` low bits of `v`, most significant
     * first, one WriteBit at a time. Errors of WriteBit are dropped, so
     * on a closed writer it quietly does nothing; a panic of WriteBit
     * ends the program, here reported as `Panic`.
     */
    method WriteBits32(v: uint32, count: nat) returns (n: int, st: Status)
      requires Valid()
      modifies this
      ensures n == 0
      ensures count > 32 ==> st == ErrTooManyBits(count) && unchanged(this)
      ensures count <= 32 && old(closed) ==> st == Ok && unchanged(this)
      ensures count <= 32 && !old(closed) && old(bitsUnflushed) + count <= Capacity ==>
        st == Ok && Valid() && !closed && sink == old(sink) && bitsUnflushed == old(bitsUnflushed) + count
        && Stream() == old(Stream()) + BitsOf(v, count)
      ensures st == Panic <==> count <= 32 && !old(closed) && Capacity < old(bitsUnflushed) + count
      ensures st == Panic ==>
        cache == [] && bitsUnflushed == 0 && !closed
        && BytesBits(sink) == old(Stream()) + BitsOf(Shr(v, old(bitsUnflushed) + count - Capacity), Capacity - old(bitsUnflushed))
                              + Zeros(8 * Capacity - Capacity)
    {
      if count > 32 {
        return 0, ErrTooManyBits(count);
      }
      ghost var start := Stream();
      var c: nat := count;
      while c > 0
        invariant c <= count
        invariant Valid() && closed == old(closed)
        invariant closed ==> unchanged(this)
        invariant !closed ==> sink == old(sink) && bitsUnflushed == old(bitsUnflushed) + (count - c)
        invariant !closed ==> Stream() == start + HighBits(v, count, c)
      {
        var next := c - 1;
        var bit: bv8 := if Shr(v, next) % 2 == 1 then 1 else 0;
        ghost var before := Stream();
        var s := WriteBit(bit);
        if s == Panic {
          PanicPrefix(start, v, count, c, old(bitsUnflushed));
          return 0, Panic;
        }
        if !closed {
          assert Stream() == before + [bit == 1];
          NextBit(start, v, count, c, next, bit == 1);
        }
        c := next;
      }
      assert HighBits(v, count, 0) == BitsOf(v, count);
      return 0, Ok;
    }

    /**
     * Close, as written: hands on the whole cache slice and marks the
     * writer closed. From a fresh or partly filled cache that is all
     * `Capacity` bytes, the unused ones as zero padding.
     */
    method Close() returns (st: Status)
      requires Valid()
      modifies this
      ensures Valid() && closed && st == Ok && bitsUnflushed == old(bitsUnflushed)
      ensures cache == old(cache) && sink == old(sink) + cache
      ensures BytesBits(sink) == old(Stream()) + Zeros(8 * Capacity - bitsUnflushed)
    {
      assert cache[..|cache|] == cache;
      HandOn(sink, cache, bitsUnflushed, |cache|, 8 * Capacity - bitsUnflushed);
      sink := sink + cache;
      closed := true;
      return Ok;
    }

    /**
     * flush as evidently intended: hands on only the whole bytes written
     * so far and keeps the partly filled byte at the front of a cleared
     * cache, so no bit is lost and none is invented.
     */
    method FlushFixed() returns (st: Status)
      requires Valid()
      modifies this
      ensures Valid() && st == Ok && closed == old(closed)
      ensures sink == old(sink + cache[..bitsUnflushed / 8])
      ensures bitsUnflushed == old(bitsUnflushed) % 8
      ensures Stream() == old(Stream())
    {
      if bitsUnflushed == 0 {
        return Ok;
      }
      var whole := bitsUnflushed / 8;
      var tmp: bv8 := 0;
      if bitsUnflushed % 8 != 0 {
        tmp := cache[whole];
      }
      ClearedKeepsClear(cache, bitsUnflushed, tmp);
      ClearedKeepsStream(sink, cache, bitsUnflushed, tmp);
      sink := sink + cache[..whole];
      cache := Cleared(tmp);
      bitsUnflushed := bitsUnflushed % 8;
      return Ok;
    }

    /**
     * WriteBit as evidently intended: a full cache is flushed with
     * FlushFixed, so every bit written to an open writer lands in the
     * stream and the call never fails.
     */
    method WriteBitFixed(b: bv8) returns (st: Status)
      requires Valid()
      modifies this
      ensures old(closed) ==> st == ErrClosed && unchanged(this)
      ensures !old(closed) ==>
        st == Ok && Valid() && !closed
        && bitsUnflushed == old(bitsUnflushed) % Capacity + 1
        && sink == old(sink) + (if old(bitsUnflushed) == Capacity then old(cache[..Capacity / 8]) else [])
      ensures !old(closed) && b <= 1 ==> Stream() == old(Stream()) + [b == 1]
    {
      if closed {
        return ErrClosed;
      }
      if bitsUnflushed == Capacity {
        st := FlushFixed();
      }
      Store(b);
      return Ok;
    }

    /**
     * Close as evidently intended: hands on the written bytes, the last
     * one padded with zero bits, and nothing of the unused cache.
     */
    method CloseFixed() returns (st: Status)
      requires Valid()
      modifies this
      ensures Valid() && closed && st == Ok && bitsUnflushed == old(bitsUnflushed)
      ensures cache == old(cache) && sink == old(sink) + cache[..(bitsUnflushed + 7) / 8]
      ensures BytesBits(sink) == old(Stream()) + Zeros((8 - bitsUnflushed % 8) % 8)
    {
      var used := (bitsUnflushed + 7) / 8;
      PadBits(bitsUnflushed);
      HandOn(sink, cache, bitsUnflushed, used, (8 - bitsUnflushed % 8) % 8);
      sink := sink + cache[..used];
      closed := true;
      return Ok;
    }
  }
}
