/** Fixed-size integers of the host, as ranges of integers. */
module Machine {
  type byte = x: int | 0 <= x < 256 witness 0

  const WORD := 0x1_0000_0000
  type word = x: int | 0 <= x < WORD witness 0

  const TWO64 := 0x1_0000_0000_0000_0000

  function Min(x: int, y: int): int { if x < y then x else y }
  function Max(x: int, y: int): int { if x < y then y else x }

  lemma Monotone(d: nat, j: int, k: int)
    requires j <= k
    ensures d * j <= d * k
  {
    assert d * k == d * j + d * (k - j);
  }
}
