/** Facts about division that several modules need. */
module DivMod {

  lemma MulAtLeast(k: int, d: int)
    requires k >= 1 && d > 0
    ensures k * d >= d
  {}

  lemma SplitUnique(d: int, q: int, r: int, p: int, s: int)
    requires 0 <= r < d && 0 <= s < d && q * d + r == p * d + s
    ensures q == p && r == s
  {
    assert (q - p) * d == s - r;
    if q > p {
      MulAtLeast(q - p, d);
    } else if q < p {
      MulAtLeast(p - q, d);
    }
  }

  lemma QuotientUnique(x: int, d: int, q: int, r: int)
    requires 0 <= r < d && x == q * d + r
    ensures x / d == q && x % d == r
  {
    assert x == x / d * d + x % d;
    SplitUnique(d, q, r, x / d, x % d);
  }

  lemma DivStep(x: int, d: int)
    requires d > 0
    ensures x / d == (x - d) / d + 1 && x % d == (x - d) % d
  {
    var q, r := (x - d) / d, (x - d) % d;
    assert x - d == d * q + r;
    assert x == (q + 1) * d + r;
    QuotientUnique(x, d, q + 1, r);
  }

  lemma SmallDiv(x: int, d: int)
    requires 0 <= x < d
    ensures x / d == 0 && x % d == x
  {
    QuotientUnique(x, d, 0, x);
  }

  lemma QuotientOfByte(x: nat, d: nat)
    requires d > 0
    ensures x / 256 / d == x / (256 * d)
  {
    var q := x / 256;
    var p, e := q / d, q % d;
    assert q == p * d + e;
    assert 256 * (p * d) == p * (256 * d);
    QuotientUnique(x, 256 * d, p, e * 256 + x % 256);
  }
}
