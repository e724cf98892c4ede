/** Fixed-width unsigned machine integers, written over the mathematical integers:
    every wrap-around, complement and mask of the C code is spelled out. */
module Bits {
  const U16 := 0x1_0000
  const U32 := 0x1_0000_0000
  const U64 := 0x1_0000_0000_0000_0000

  type u8 = x: int | 0 <= x < 0x100
  type u16 = x: int | 0 <= x < 0x1_0000
  type u32 = x: int | 0 <= x < 0x1_0000_0000
  type u64 = x: int | 0 <= x < 0x1_0000_0000_0000_0000

  /** `x + y`, `x - y` and `~x` on uint32_t. */
  function Add32(x: u32, y: u32): u32 { (x + y) % U32 }
  function Sub32(x: u32, y: u32): u32 { (x - y) % U32 }
  function Not32(x: u32): u32 { U32 - 1 - x }

  /** The 16-bit word with the given low and high bytes. */
  function Word(lo: u8, hi: u8): u16 { lo as int + 0x100 * (hi as int) }

  /** The bitwise conjunction of two non-negative integers. */
  function BitAnd(x: nat, y: nat): nat
    decreases x
  {
    if x == 0 || y == 0 then 0
    else 2 * BitAnd(x / 2, y / 2) + (if x % 2 == 1 && y % 2 == 1 then 1 else 0)
  }

  function Pow2(k: nat): (r: nat)
    ensures r > 0
  {
    if k == 0 then 1 else 2 * Pow2(k - 1)
  }

  /** Masking with 2^k - 1 keeps the remainder modulo 2^k. */
  lemma {:induction false} MaskIsMod(x: nat, k: nat)
    ensures BitAnd(x, Pow2(k) - 1) == x % Pow2(k)
    decreases k
  {
    if x == 0 || k == 0 {
    } else {
      var p := Pow2(k - 1);
      MaskIsMod(x / 2, k - 1);
      assert (Pow2(k) - 1) / 2 == p - 1 && (Pow2(k) - 1) % 2 == 1;
      if p == 1 {
        assert BitAnd(x / 2, 0) == 0;
      }
      HalvedMod(x, p);
    }
  }

  /** x mod 2p is rebuilt from its last bit and (x / 2) mod p. */
  lemma HalvedMod(x: nat, p: nat)
    requires p > 0
    ensures x % (2 * p) == 2 * ((x / 2) % p) + x % 2
  {
    var q, r := (x / 2) / p, (x / 2) % p;
    assert x == (2 * p) * q + (2 * r + x % 2) by {
      assert x / 2 == p * q + r;
      assert (2 * p) * q == 2 * (p * q);
    }
    ModUnique(x, 2 * p, q, 2 * r + x % 2);
  }

  /** Quotient and remainder are unique. */
  lemma ModUnique(x: int, m: int, q: int, r: int)
    requires m > 0 && 0 <= r < m && x == m * q + r
    ensures x % m == r && x / m == q
  {
    var q', r' := x / m, x % m;
    assert x == m * q' + r' && 0 <= r' < m;
    var d := q' - q;
    assert m * d == r - r' by {
      assert m * d == m * q' - m * q;
    }
    ProductAtLeast(m, d);
  }

  /** A product with a non-zero factor is at least as large as the other factor. */
  lemma ProductAtLeast(m: int, d: int)
    requires m > 0
    ensures d >= 1 ==> m * d >= m
    ensures d <= -1 ==> m * d <= -m
  {
    if d >= 1 {
      assert m * d == m * (d - 1) + m;
    } else if d <= -1 {
      assert m * d == m * (d + 1) - m;
    }
  }
}
