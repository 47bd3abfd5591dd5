/** Fixed-width integer types shared by the compressor's stages. */
module Bytes {
  /** Go's `byte`. */
  type byte = x: int | 0 <= x < 0x100

  /** Go's `uint16`. */
  type uint16 = x: int | 0 <= x < 0x1_0000

  /** Go's `uint32`. */
  type uint32 = x: int | 0 <= x < 0x1_0000_0000

  /** `n` copies of `b`. */
  function Repeat(b: byte, n: nat): (r: seq<byte>)
    ensures |r| == n
  {
    if n == 0 then [] else [b] + Repeat(b, n - 1)
  }

  lemma {:induction false} RepeatAt(b: byte, n: nat, k: nat)
    requires k < n
    ensures Repeat(b, n)[k] == b
  {
    if k > 0 {
      RepeatAt(b, n - 1, k - 1);
    }
  }

  /** Runs of the same byte add up. */
  lemma {:induction false} RepeatAdd(v: byte, a: nat, b: nat)
    ensures Repeat(v, a) + Repeat(v, b) == Repeat(v, a + b)
  {
    if a > 0 {
      RepeatAdd(v, a - 1, b);
    }
  }

  /** 2 to the power `k`. */
  function Pow2(k: nat): (r: nat)
    ensures r >= 1
  {
    if k == 0 then 1 else 2 * Pow2(k - 1)
  }

  /** `v >> k` for a non-negative `v`: `k` halvings. */
  function Shr(v: nat, k: nat): nat
  {
    if k == 0 then v else Shr(v, k - 1) / 2
  }

  lemma {:induction false} Pow2Add(a: nat, b: nat)
    ensures Pow2(a + b) == Pow2(a) * Pow2(b)
  {
    if a > 0 {
      Pow2Add(a - 1, b);
    }
  }

  lemma MulLe(x: int, y: int, b: nat)
    requires x <= y
    ensures x * b <= y * b
  {
  }

  lemma MulLt(x: int, y: int, b: nat)
    requires x < y
    ensures x * b + b <= y * b
  {
    MulLe(x + 1, y, b);
    assert (x + 1) * b == x * b + b;
  }

  /** Quotient and remainder are the only ones with `0 <= r < b`. */
  lemma DivUnique(a: int, b: int, q: int, r: int)
    requires b > 0 && a == q * b + r && 0 <= r < b
    ensures a / b == q && a % b == r
  {
    var q' := a / b;
    if q' < q {
      MulLt(q', q, b);
      assert false;
    } else if q < q' {
      MulLt(q, q', b);
      assert false;
    }
  }

  /** Halving after dividing by `b` is dividing by `2 * b`. */
  lemma DivHalf(a: nat, b: nat)
    requires b > 0
    ensures a / b / 2 == a / (2 * b)
  {
    var q, r := a / (2 * b), a % (2 * b);
    var d, e := r / b, r % b;
    assert d < 2 by {
      if d >= 2 {
        MulLe(2, d, b);
      }
    }
    assert a == (2 * q + d) * b + e by {
      assert a == q * (2 * b) + r;
      assert q * (2 * b) == (2 * q) * b;
      assert (2 * q + d) * b == (2 * q) * b + d * b;
    }
    DivUnique(a, b, 2 * q + d, e);
    DivUnique(2 * q + d, 2, q, d);
  }

  /** Concatenation is associative. */
  lemma AppendAssoc<T>(a: seq<T>, b: seq<T>, c: seq<T>)
    ensures a + (b + c) == (a + b) + c
  {
  }

  /** One copy of `x` cancels from both sides of a multiset equation. */
  lemma Cancel<T>(x: T, a: multiset<T>, b: multiset<T>)
    requires multiset{x} + a == multiset{x} + b
    ensures a == b
  {
    assert a == (multiset{x} + a) - multiset{x};
    assert b == (multiset{x} + b) - multiset{x};
  }

  /** Taking element `j` out of a list takes it out of the multiset. */
  lemma RemoveAt<T>(q: seq<T>, j: nat)
    requires j < |q|
    ensures multiset(q) == multiset{q[j]} + multiset(q[..j] + q[j + 1..])
  {
    assert q == q[..j] + [q[j]] + q[j + 1..];
  }

  /** Taking the first element of `p` and a copy of it out of `q` leaves equal multisets. */
  lemma RemoveMatch<T>(p: seq<T>, q: seq<T>, j: nat)
    requires multiset(p) == multiset(q)
    requires p != [] && j < |q| && q[j] == p[0]
    ensures multiset(p[1..]) == multiset(q[..j] + q[j + 1..])
  {
    assert p[..0] + p[1..] == p[1..];
    RemoveAt(q, j);
    RemoveAt(p, 0);
    Cancel(p[0], multiset(p[1..]), multiset(q[..j] + q[j + 1..]));
  }
}
