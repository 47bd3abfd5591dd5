/**
 * The block encoder of encoder.go: the byte buffer that collects one
 * block (`blockEncoder.Write`, `newBlockEncoder`) and the fixed block
 * header prefix `writeTo` sends through the bit writer.
 */
module Encoder {
  import opened Bytes
  import Bits

  /** `bzip2BlockMagic`, the digits of pi in binary-coded decimal. */
  const BlockMagic: nat := 0x314159265359

  /** `bzip2BlockMagic>>16`: the high 32 bits of the magic. */
  const MagicHigh: uint32 := (BlockMagic / 0x1_0000) as uint32

  /** `bzip2BlockMagic&((1<<17)-1)`: the low 17 bits of the magic, of which 16 are written. */
  const MagicLow: uint32 := (BlockMagic % 0x2_0000) as uint32

  /** `1<<32-1`, written where the block CRC belongs. */
  const CrcPlaceholder: uint32 := 0xFFFF_FFFF

  /** The number of bits `writeTo` emits. */
  const HeaderBits: nat := 81

  // ---------------------------------------------------------------------
  // Bit strings
  // ---------------------------------------------------------------------

  function Ones(n: nat): (r: seq<bool>)
    ensures |r| == n
  {
    seq(n, _ => true)
  }

  lemma {:induction false} ShrHalf(v: nat, k: nat)
    ensures Shr(v / 2, k) == Shr(v, k + 1)
  {
    if k > 0 {
      ShrHalf(v, k - 1);
    }
  }

  /** The `a + b` low bits of `v` are the `a` bits above position `b`, then the `b` low bits. */
  lemma {:induction false} BitsSplit(v: nat, a: nat, b: nat)
    ensures Bits.BitsOf(v, a + b) == Bits.BitsOf(Shr(v, b), a) + Bits.BitsOf(v, b)
  {
    if b > 0 {
      BitsSplit(v / 2, a, b - 1);
      ShrHalf(v, b - 1);
      assert a + b - 1 == a + (b - 1);
    }
  }

  /** Adding a multiple of `2^n` changes none of the `n` low bits. */
  lemma {:induction false} BitsHigher(v: nat, n: nat, k: nat)
    ensures Bits.BitsOf(v + Pow2(n) * k, n) == Bits.BitsOf(v, n)
  {
    if n > 0 {
      var t := Pow2(n - 1) * k;
      assert Pow2(n) * k == 2 * t;
      assert (v + 2 * t) / 2 == v / 2 + t;
      assert (v + 2 * t) % 2 == v % 2;
      BitsHigher(v / 2, n - 1, k);
    }
  }

  /** All `n` bits of `2^n - 1` are set. */
  lemma {:induction false} BitsAllOnes(n: nat)
    ensures Bits.BitsOf(Pow2(n) - 1, n) == Ones(n)
  {
    if n > 0 {
      BitsAllOnes(n - 1);
      assert (Pow2(n) - 1) / 2 == Pow2(n - 1) - 1;
      assert (Pow2(n) - 1) % 2 == 1;
    }
  }

  /** What `writeTo` sends, one call at a time. */
  function BlockHeader(): seq<bool>
  {
    Bits.BitsOf(MagicHigh as nat, 32) + Bits.BitsOf(MagicLow as nat, 16)
    + Bits.BitsOf(CrcPlaceholder as nat, 32) + [false]
  }

  /** A number cut at bit `lb` into `high` and `low`: its bits are those of `high`, then those of `low`. */
  lemma JoinBits(m: nat, high: nat, low: nat, k: nat, hb: nat, lb: nat)
    requires Shr(m, lb) == high && m == low + Pow2(lb) * k
    ensures Bits.BitsOf(m, hb + lb) == Bits.BitsOf(high, hb) + Bits.BitsOf(low, lb)
  {
    BitsSplit(m, hb, lb);
    BitsHigher(low, lb, k);
  }

  lemma {:induction false} ShrDiv(v: nat, k: nat)
    ensures Shr(v, k) == v / Pow2(k)
  {
    if k > 0 {
      ShrDiv(v, k - 1);
      DivHalf(v, Pow2(k - 1));
    }
  }

  lemma Powers()
    ensures Pow2(16) == 0x1_0000 && Pow2(32) == 0x1_0000_0000
  {
    Pow2Add(16, 16);
    Pow2Add(8, 8);
    Pow2Add(4, 4);
  }

  /** The two pieces of the magic, high one first, are its 48 bits. */
  lemma MagicBits(m: nat, high: nat, low: nat)
    requires m == 0x314159265359 && high == 0x31415926 && low == 0x5359
    ensures Bits.BitsOf(m, 48) == Bits.BitsOf(high, 32) + Bits.BitsOf(low, 16)
  {
    Powers();
    ShrDiv(m, 16);
    JoinBits(m, high, low, high, 32, 16);
  }

  /** The two pieces of the magic as written. */
  lemma MagicParts()
    ensures MagicHigh == 0x31415926 && MagicLow == 0x5359
  {
  }

  lemma CrcBits(crc: nat)
    requires crc == CrcPlaceholder as nat
    ensures Bits.BitsOf(crc, 32) == Ones(32)
  {
    Powers();
    BitsAllOnes(32);
  }

  /**
   * The header is the 48-bit magic, most significant bit first, then 32
   * set bits in the CRC field, then a clear randomised flag: 81 bits.
   * The 17-bit mask on the low half loses nothing, as only 16 bits of it
   * are written.
   */
  lemma HeaderLayout()
    ensures |BlockHeader()| == HeaderBits
    ensures BlockHeader() == Bits.BitsOf(BlockMagic, 48) + Ones(32) + [false]
  {
    MagicParts();
    MagicBits(BlockMagic, MagicHigh as nat, MagicLow as nat);
    CrcBits(CrcPlaceholder as nat);
  }

  // ---------------------------------------------------------------------
  // The block encoder
  // ---------------------------------------------------------------------

  /** `blockEncoder`: the bytes of one block, up to `capacity` of them. */
  class BlockEncoder {
    var input: seq<byte>
    var capacity: nat

    ghost predicate Valid()
      reads this
    {
      |input| <= capacity
    }

    /** newBlockEncoder: an empty block of the given capacity. */
    constructor (capacity: nat)
      ensures Valid()
      ensures input == [] && this.capacity == capacity
    {
      input := [];
      this.capacity := capacity;
    }

    /**
     * Write: takes as many leading bytes of `data` as there is room for
     * and returns how many it took; the error it returns is always nil.
     */
    method Write(data: seq<byte>) returns (n: nat)
      requires Valid()
      modifies this
      ensures Valid() && capacity == old(capacity)
      ensures n == if |data| <= capacity - |old(input)| then |data| else capacity - |old(input)|
      ensures input == old(input) + data[..n]
      ensures n < |data| ==> |input| == capacity
      ensures old(input) + data == input + data[n..]
    {
      if |data| + |input| > capacity {
        n := capacity - |input|;
        input := input + data[..n];
        assert old(input) + data == input + data[n..] by {
          assert data == data[..n] + data[n..];
        }
        return n;
      }
      input := input + data;
      assert data[..|data|] == data;
      return |data|;
    }

    /**
     * writeTo: the magic in two pieces, the CRC placeholder and the
     * randomised flag. A closed bit writer takes nothing and the errors
     * it returns are dropped; a cache with fewer than 81 bits of room
     * runs full on the way, and the write that follows panics.
     */
    method WriteTo(w: Bits.Writer) returns (st: Bits.Status)
      requires w.Valid()
      modifies w
      ensures old(w.closed) ==> st == Bits.Ok && unchanged(w)
      ensures !old(w.closed) && old(w.bitsUnflushed) + HeaderBits <= Bits.Capacity ==>
        st == Bits.Ok && w.Valid() && !w.closed && w.sink == old(w.sink)
        && w.bitsUnflushed == old(w.bitsUnflushed) + HeaderBits
        && w.Stream() == old(w.Stream()) + Bits.BitsOf(MagicHigh as nat, 32) + Bits.BitsOf(MagicLow as nat, 16)
                         + Bits.BitsOf(CrcPlaceholder as nat, 32) + [false]
      ensures st == Bits.Panic <==> !old(w.closed) && Bits.Capacity < old(w.bitsUnflushed) + HeaderBits
    {
      st := WriteMagic(w);
      if st == Bits.Panic {
        return;
      }
      var n, s := w.WriteBits32(CrcPlaceholder, 32);
      if s == Bits.Panic {
        return Bits.Panic;
      }
      s := w.WriteBit(0);
      if s == Bits.Panic {
        return Bits.Panic;
      }
      return Bits.Ok;
    }
  }

  /** The first two writes of writeTo: the magic, high 32 bits then low 16 bits. */
  method WriteMagic(w: Bits.Writer) returns (st: Bits.Status)
    requires w.Valid()
    modifies w
    ensures st == Bits.Ok || st == Bits.Panic
    ensures old(w.closed) ==> st == Bits.Ok && unchanged(w)
    ensures !old(w.closed) && old(w.bitsUnflushed) + 48 <= Bits.Capacity ==>
      st == Bits.Ok && w.Valid() && !w.closed && w.sink == old(w.sink)
      && w.bitsUnflushed == old(w.bitsUnflushed) + 48
      && w.Stream() == old(w.Stream()) + Bits.BitsOf(MagicHigh as nat, 32) + Bits.BitsOf(MagicLow as nat, 16)
    ensures st == Bits.Panic <==> !old(w.closed) && Bits.Capacity < old(w.bitsUnflushed) + 48
  {
    var n, s := w.WriteBits32(MagicHigh, 32);
    if s == Bits.Panic {
      return Bits.Panic;
    }
    n, s := w.WriteBits32(MagicLow, 16);
    if s == Bits.Panic {
      return Bits.Panic;
    }
    return Bits.Ok;
  }
}
