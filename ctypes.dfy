/** Fixed-width unsigned integers and the C operators on them that the
    transport's timestamp arithmetic uses. Integers in Dafny are unbounded,
    so every shift and subtraction on a `uint64_t` is written with its
    wrap-around made explicit. */
module CTypes {

  type u8 = x: int | 0 <= x < 0x100
  type u16 = x: int | 0 <= x < 0x1_0000
  type u32 = x: int | 0 <= x < 0x1_0000_0000
  type u64 = x: int | 0 <= x < 0x1_0000_0000_0000_0000

  const TWO_32: int := 0x1_0000_0000
  const TWO_64: int := 0x1_0000_0000_0000_0000

  /** A C pointer that may be NULL. */
  datatype Option<T> = None | Some(value: T)

  function Pow2(n: nat): (r: nat)
    ensures r >= 1
  {
    if n == 0 then 1 else 2 * Pow2(n - 1)
  }

  /** Bitwise OR of two non-negative integers, bit by bit from the least
      significant end. */
  function BitOr(a: nat, b: nat): nat
    decreases a + b
  {
    if a == 0 then b
    else if b == 0 then a
    else 2 * BitOr(a / 2, b / 2) + (if a % 2 == 1 || b % 2 == 1 then 1 else 0)
  }

  /** OR of two k-bit values is a k-bit value. */
  lemma {:induction false} BitOrBound(a: nat, b: nat, k: nat)
    requires a < Pow2(k) && b < Pow2(k)
    ensures BitOr(a, b) < Pow2(k)
    decreases a + b
  {
    if a != 0 && b != 0 {
      assert k > 0;
      BitOrBound(a / 2, b / 2, k - 1);
    }
  }

  /** When the set bits of `a` and `b` do not overlap (`a` is a multiple of
      2^k, `b` is below 2^k), OR is addition. */
  lemma {:induction false} BitOrDisjoint(a: nat, b: nat, k: nat, m: nat)
    requires a == m * Pow2(k) && b < Pow2(k)
    ensures BitOr(a, b) == a + b
    decreases k
  {
    if k == 0 {
      assert b == 0;
    } else if a != 0 && b != 0 {
      var p := Pow2(k - 1);
      assert a == 2 * (m * p);
      assert a / 2 == m * p && a % 2 == 0;
      BitOrDisjoint(a / 2, b / 2, k - 1, m);
    }
  }

  lemma {:induction false} Pow2Add(i: nat, j: nat)
    ensures Pow2(i + j) == Pow2(i) * Pow2(j)
    decreases i
  {
    if i > 0 {
      Pow2Add(i - 1, j);
    }
  }

  lemma Pow2Words()
    ensures Pow2(32) == TWO_32 && Pow2(64) == TWO_64
  {
    assert Pow2(2) == 4;
    Pow2Add(2, 2);
    assert Pow2(4) == 16;
    Pow2Add(4, 4);
    assert Pow2(8) == 0x100;
    Pow2Add(8, 8);
    assert Pow2(16) == 0x1_0000;
    Pow2Add(16, 16);
    assert Pow2(32) == TWO_32;
    Pow2Add(32, 32);
  }

  /** `x << n` on a uint64_t: the bits shifted past bit 63 are lost. */
  function ShiftLeft64(x: u64, n: nat): u64
  {
    (x * Pow2(n)) % TWO_64
  }

  /** `a | b` on uint64_t operands. */
  function BitOr64(a: u64, b: u64): (r: u64)
    ensures r >= a && r >= b
  {
    Pow2Words();
    BitOrBound(a, b, 64);
    BitOrAtLeast(a, b);
    BitOr(a, b)
  }

  lemma {:induction false} BitOrAtLeast(a: nat, b: nat)
    ensures BitOr(a, b) >= a && BitOr(a, b) >= b
    decreases a + b
  {
    if a != 0 && b != 0 {
      BitOrAtLeast(a / 2, b / 2);
    }
  }

  /** `a - b` on uint64_t operands: the result wraps modulo 2^64. */
  function Sub64(a: u64, b: u64): (r: u64)
    ensures a >= b ==> r == a - b
    ensures a < b ==> r == a - b + TWO_64
  {
    (a - b) % TWO_64
  }
}
