/** Machine word sizes, and what a remainder is: quotient and remainder are the only pair that fits. */
module Modular {

  const TWO16 := 0x1_0000
  const TWO24 := 0x100_0000
  const TWO32 := 0x1_0000_0000
  const TWO40 := 0x100_0000_0000
  const TWO48 := 0x1_0000_0000_0000
  const TWO64 := 0x1_0000_0000_0000_0000

  lemma ModUnique(x: int, m: nat, q: int, r: int)
    requires m > 0 && 0 <= r < m && x == q * m + r
    ensures x % m == r
  {
    var d := x / m - q;
    assert d * m == r - x % m;
  }

  lemma SmallMod(x: int, m: nat)
    requires 0 <= x < m
    ensures x % m == x
  {
    ModUnique(x, m, 0, x);
  }

  /** A remainder, taken in a low byte and the rest. */
  lemma ModInParts(x: int, n: nat)
    requires n > 0
    ensures x % 256 + 256 * (x / 256 % n) == x % (256 * n)
  {
    var q, i := x / 256 / n, x / 256 % n;
    DivMod(x / 256, n);
    Regroup(n, q, i);
    ModUnique(x, 256 * n, q, x % 256 + 256 * i);
  }

  lemma DivMod(y: int, n: nat)
    requires n > 0
    ensures y == n * (y / n) + y % n && 0 <= y % n < n
  {
  }

  lemma Regroup(n: nat, q: int, i: nat)
    ensures 256 * (n * q + i) == q * (256 * n) + 256 * i
  {
  }
}
