/** 32-bit unsigned machine words (`ADDR32`, i.e. `uint32_t`) and bit helpers. */
module Word {

  const MOD32: int := 0x1_0000_0000

  type u32 = x: int | 0 <= x < 0x1_0000_0000

  /** Truncation of an unbounded integer to `uint32_t`, as C++ unsigned arithmetic does. */
  function Wrap(x: int): (r: u32)
    ensures 0 <= x < MOD32 ==> r == x
    ensures (r - x) % MOD32 == 0
  {
    x % MOD32
  }

  /** Truncating early does not change a later truncation. */
  lemma WrapAdd(x: int, y: int)
    ensures Wrap(Wrap(x) + y) == Wrap(x + y)
  {
    assert Wrap(x) + y == (x + y) - (x / MOD32) * MOD32;
  }

  /** A `bitset<32>` is kept as the number its bits spell, bit 0 least significant:
      `bitset<32>(unsigned long n)` keeps the low 32 bits of `n`. */
  function Low32(n: nat): (r: u32)
    ensures n < MOD32 ==> r == n
  {
    n % MOD32
  }

  /** Bit `k` of a natural number. */
  predicate NatBit(n: nat, k: nat)
    decreases k
  {
    if k == 0 then n % 2 == 1 else NatBit(n / 2, k - 1)
  }

  /** `a >> n`: `n` halvings. */
  function ShiftRight(a: nat, n: nat): (r: nat)
    ensures r <= a
    decreases n
  {
    if n == 0 then a else ShiftRight(a / 2, n - 1)
  }

  function Pow2(k: nat): (r: nat)
    ensures r >= 1
  {
    if k == 0 then 1 else 2 * Pow2(k - 1)
  }
}
