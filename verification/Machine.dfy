/** Fixed-width integers and the bit operations the sources use on them, written out
    on unbounded integers. */
module Machine {

  const TWO_TO_THE_64: int := 0x1_0000_0000_0000_0000
  const UINT64_MAX: int := TWO_TO_THE_64 - 1
  const INT_MAX: int := 0x7fff_ffff_ffff_ffff
  const INT_MIN: int := -INT_MAX - 1

  type Byte = b: int | 0 <= b < 256
  type UInt64 = u: int | 0 <= u < TWO_TO_THE_64
  /** Swift's `Int` on a 64-bit platform. */
  type Int64 = i: int | INT_MIN <= i <= INT_MAX

  function Min(a: int, b: int): int { if a <= b then a else b }

  function Max(a: int, b: int): int { if a <= b then b else a }

  function Pow2(n: nat): (p: nat)
    ensures p > 0
  {
    if n == 0 then 1 else 2 * Pow2(n - 1)
  }

  /** Bitwise or of two naturals, bit by bit. */
  function BitOr(a: nat, b: nat): nat
    decreases a + b
  {
    if a == 0 && b == 0 then 0
    else Max(a % 2, b % 2) + 2 * BitOr(a / 2, b / 2)
  }

  /** Swift's smart left shift on `UInt64`: bits moved past bit 63 are dropped. */
  function ShiftLeft64(value: UInt64, places: nat): UInt64 {
    value * Pow2(places) % TWO_TO_THE_64
  }

  /** Or-ing a value below bit `k` with one whose low `k` bits are clear is addition. */
  lemma {:induction false} BitOrDisjoint(low: nat, high: nat, k: nat)
    requires low < Pow2(k)
    ensures BitOr(low, high * Pow2(k)) == low + high * Pow2(k)
    decreases k
  {
    if k == 0 {
      BitOrZero(high);
    } else {
      var half := high * Pow2(k - 1);
      assert high * Pow2(k) == 2 * half;
      BitOrDisjoint(low / 2, high, k - 1);
    }
  }

  lemma {:induction false} BitOrZero(b: nat)
    ensures BitOr(0, b) == b
  {
    if b != 0 {
      BitOrZero(b / 2);
    }
  }
}
