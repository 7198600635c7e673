/** Unsigned 32-bit words as integers, with the one mask the drivers use: clearing the low bits. */
module Bits {

  const TWO32 := 0x1_0000_0000

  type Word = x: int | 0 <= x < TWO32

  /** The low 32 bits of a sum or difference. */
  function Low32(x: int): Word { x % TWO32 }

  function And(x: nat, y: nat): (r: nat)
    ensures r <= x
  {
    if x == 0 then 0 else x % 2 * (y % 2) + 2 * And(x / 2, y / 2)
  }

  function Not(x: Word): Word { TWO32 - 1 - x }

  function Pow2(k: nat): (r: nat)
    ensures r >= 1
  {
    if k == 0 then 1 else 2 * Pow2(k - 1)
  }

  /** `a` is a power of two that a 32-bit word can hold. */
  ghost predicate PowerOfTwo(a: nat) { exists k: nat :: k < 32 && a == Pow2(k) }

  lemma {:induction false} AndOnes(n: nat, x: nat)
    requires x < Pow2(n)
    ensures And(x, Pow2(n) - 1) == x
  {
    if n > 0 { AndOnes(n - 1, x / 2); }
  }

  /** The bits from k up, below bit n. */
  lemma {:induction false} AndHighBits(n: nat, k: nat, x: nat)
    requires k <= n && x < Pow2(n)
    ensures Pow2(k) <= Pow2(n) && And(x, Pow2(n) - Pow2(k)) == x - x % Pow2(k)
  {
    if k == 0 {
      AndOnes(n, x);
    } else {
      AndHighBits(n - 1, k - 1, x / 2);
      AndEven(x, Pow2(n - 1) - Pow2(k - 1));
      HalfMod(x, Pow2(k - 1));
    }
  }

  lemma AndEven(x: nat, h: nat)
    ensures And(x, 2 * h) == 2 * And(x / 2, h)
  {
    assert 2 * h % 2 == 0 && 2 * h / 2 == h;
  }

  lemma HalfMod(x: nat, m: nat)
    requires m >= 1
    ensures x % (2 * m) == 2 * (x / 2 % m) + x % 2
  {
    var q, r := x / 2 / m, x / 2 % m;
    assert x / 2 == m * q + r;
    assert x == 2 * m * q + (2 * r + x % 2) by { assert x == 2 * (m * q + r) + x % 2; }
    ModUnique(x, 2 * m, q, 2 * r + x % 2);
  }

  lemma ModUnique(x: int, m: int, q: int, r: int)
    requires 0 <= r < m && x == m * q + r
    ensures x % m == r && x / m == q
  {
    var q', r' := x / m, x % m;
    assert m * (q' - q) == r - r';
    assert q' - q >= 1 ==> m * (q' - q) >= m;
    assert q' - q <= -1 ==> m * (q' - q) <= -m;
  }

  lemma {:induction false} Pow2Monotone(j: nat, k: nat)
    requires j <= k
    ensures Pow2(j) <= Pow2(k)
    decreases k
  {
    if j < k { Pow2Monotone(j, k - 1); }
  }

  /** Clearing the low bits with `& ~(a - 1)` rounds down to a multiple of `a`. */
  lemma MaskRoundsDown(x: Word, a: nat)
    requires PowerOfTwo(a)
    ensures a <= 0x8000_0000 && And(x, Not(a - 1)) == x - x % a
  {
    var k: nat :| k < 32 && a == Pow2(k);
    Pow2Monotone(k, 31);
    assert Pow2(31) == 0x8000_0000 && Pow2(32) == TWO32 by { Pow2Values(); }
    AndHighBits(32, k, x);
  }

  lemma RoundDown(x: nat, a: nat)
    requires a >= 1
    ensures x - a < x - x % a <= x && (x - x % a) % a == 0
  {
    ModUnique(x - x % a, a, x / a, 0);
  }

  lemma Low32Id(x: int)
    requires 0 <= x < TWO32
    ensures Low32(x) == x
  {
  }

  lemma Low32Wraps(x: int)
    requires TWO32 <= x < 2 * TWO32
    ensures Low32(x) == x - TWO32
  {
    ModUnique(x, TWO32, 1, x - TWO32);
  }

  lemma Low32Borrows(x: int)
    requires -TWO32 <= x < 0
    ensures Low32(x) == x + TWO32
  {
    ModUnique(x, TWO32, -1, x + TWO32);
  }

  lemma Pow2Values()
    ensures Pow2(5) == 32 && Pow2(8) == 0x100 && Pow2(16) == 0x1_0000
    ensures Pow2(31) == 0x8000_0000 && Pow2(32) == TWO32
  {
    assert Pow2(4) == 16;
    assert Pow2(8) == 16 * Pow2(4);
    assert Pow2(12) == 16 * Pow2(8);
    assert Pow2(16) == 16 * Pow2(12);
    assert Pow2(20) == 16 * Pow2(16);
    assert Pow2(24) == 16 * Pow2(20);
    assert Pow2(28) == 16 * Pow2(24);
    assert Pow2(32) == 16 * Pow2(28);
  }
}
