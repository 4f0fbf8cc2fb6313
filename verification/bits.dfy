/** Unsigned 64-bit values as natural numbers, and the few bit operations the
    cycle search uses on them: testing a bit, `s | (1 << i)`, `x & (1 << i)`
    and `x << n` (which drops the bits shifted past position 63).
 */
module Bits {

  /** One more than the largest `u64`. */
  const U64_LIMIT: nat := 0x1_0000_0000_0000_0000

  type u64 = x: nat | x < U64_LIMIT

  function Pow2(n: nat): (r: nat)
    ensures r >= 1
  {
    if n == 0 then 1 else 2 * Pow2(n - 1)
  }

  /** Bit `i` of `s`, bit 0 being the least significant. */
  function Bit(s: nat, i: nat): bool
  {
    if i == 0 then s % 2 == 1 else Bit(s / 2, i - 1)
  }

  /** `s | (1 << i)`: bit `i` is set and every other bit is left alone. */
  function SetBit(s: nat, i: nat): (r: nat)
    ensures Bit(r, i)
    ensures forall k: nat :: k != i ==> Bit(r, k) == Bit(s, k)
    ensures !Bit(s, i) ==> r == s + Pow2(i)
  {
    if Bit(s, i) then s
    else
      AddPow2Bits(s, i);
      s + Pow2(i)
  }

  /** `x & (1 << i)`: `1 << i` when bit `i` of `x` is set, zero otherwise. */
  function MaskBit(x: u64, i: nat): (r: u64)
    requires i < 64
    ensures r != 0 <==> Bit(x, i)
  {
    if Bit(x, i) then
      Pow2Monotone(i, 63);
      Pow2Of64();
      Pow2(i)
    else 0
  }

  /** `x << n` on `u64`: multiplication by `2^n`, keeping the low 64 bits. Rust
      checks only the shift amount, which must stay below 64. */
  function Shl64(x: u64, n: nat): u64
    requires n < 64
  {
    (x * Pow2(n)) % U64_LIMIT
  }

  lemma {:induction false} Pow2Add(a: nat, b: nat)
    ensures Pow2(a + b) == Pow2(a) * Pow2(b)
  {
    if a > 0 {
      Pow2Add(a - 1, b);
    }
  }

  lemma {:induction false} Pow2Monotone(a: nat, b: nat)
    requires a <= b
    ensures Pow2(a) <= Pow2(b)
  {
    if a < b {
      Pow2Monotone(a, b - 1);
    }
  }

  lemma Pow2Of16()
    ensures Pow2(16) == 0x1_0000
  {
    assert Pow2(4) == 16;
    Pow2Add(4, 4);
    Pow2Add(8, 8);
  }

  lemma Pow2Of32()
    ensures Pow2(32) == 0x1_0000_0000
  {
    Pow2Of16();
    Pow2Add(16, 16);
  }

  /** `2^64` is the modulus of `u64` arithmetic. */
  lemma Pow2Of64()
    ensures Pow2(64) == U64_LIMIT
  {
    Pow2Of32();
    Pow2Add(32, 32);
  }

  /** Blocks of `d` numbers follow each other in the order of their numbers. */
  lemma {:induction false} BlocksOrdered(q1: int, q2: int, d: int)
    requires q1 < q2 && d > 0
    ensures q1 * d + d <= q2 * d
    decreases q2 - q1
  {
    if q2 > q1 + 1 {
      BlocksOrdered(q1, q2 - 1, d);
    }
    assert q2 * d == (q2 - 1) * d + d;
  }

  /** `a` lies in the `q`-th block of `d` numbers: its quotient is `q` and its
      remainder the offset inside the block. */
  lemma DivModInBlock(a: int, d: int, q: int)
    requires d > 0 && q * d <= a < q * d + d
    ensures a / d == q && a % d == a - q * d
  {
    var q' := a / d;
    if q' > q {
      BlocksOrdered(q, q', d);
    } else if q' < q {
      BlocksOrdered(q', q, d);
    }
  }

  /** Adding `2^i` to a number whose bit `i` is clear sets that bit and no other. */
  lemma {:induction false} AddPow2Bits(s: nat, i: nat)
    requires !Bit(s, i)
    ensures Bit(s + Pow2(i), i)
    ensures forall k: nat :: k != i ==> Bit(s + Pow2(i), k) == Bit(s, k)
  {
    if i == 0 {
      forall k: nat | k != 0
        ensures Bit(s + 1, k) == Bit(s, k)
      {
        assert (s + 1) / 2 == s / 2;
      }
    } else {
      AddPow2Bits(s / 2, i - 1);
      assert (s + Pow2(i)) / 2 == s / 2 + Pow2(i - 1);
      assert (s + Pow2(i)) % 2 == s % 2;
      forall k: nat | k != i
        ensures Bit(s + Pow2(i), k) == Bit(s, k)
      {
        if k > 0 {
          assert Bit(s / 2 + Pow2(i - 1), k - 1) == Bit(s / 2, k - 1);
        }
      }
    }
  }

  /** A number below `2^n` has no bit set at position `n` or above. */
  lemma {:induction false} NoBitAbove(s: nat, n: nat, i: nat)
    requires s < Pow2(n)
    requires n <= i
    ensures !Bit(s, i)
  {
    if i > 0 {
      if n == 0 {
        assert s == 0;
        NoBitAbove(s / 2, 0, i - 1);
      } else {
        NoBitAbove(s / 2, n - 1, i - 1);
      }
    }
  }

  /** Adding `2^n` changes no bit below `n`. */
  lemma {:induction false} LowBitsIgnoreHigh(s: nat, n: nat, i: nat)
    requires i < n
    ensures Bit(s + Pow2(n), i) == Bit(s, i)
  {
    assert (s + Pow2(n)) % 2 == s % 2;
    if i > 0 {
      assert (s + Pow2(n)) / 2 == s / 2 + Pow2(n - 1);
      LowBitsIgnoreHigh(s / 2, n - 1, i - 1);
    }
  }
}
