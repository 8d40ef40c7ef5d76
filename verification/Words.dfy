/** Machine words as bounded integers, with wrap-around written out as a
    residue modulo 2^64. */
module Words {

  const U32_MAX: nat := 0xFFFF_FFFF
  const U64_MAX: nat := 0xFFFF_FFFF_FFFF_FFFF
  const MODULUS: nat := 0x1_0000_0000_0000_0000

  type u16 = x: int | 0 <= x < 0x1_0000
  type u32 = x: int | 0 <= x <= U32_MAX
  type u64 = x: int | 0 <= x <= U64_MAX

  lemma Residue(x: int, k: int, r: int)
    requires 0 <= r < MODULUS
    requires x == r + k * MODULUS
    ensures x % MODULUS == r
  {}

  lemma QuotientIs(x: int, m: int, q: int, r: int)
    requires 0 <= r < m && x == q * m + r
    ensures x / m == q
  {
    var d := q - x / m;
    assert 0 <= x - (x / m) * m < m;
    assert d * m == q * m - (x / m) * m;
    assert -m < d * m < m;
  }
}
