/** Facts about Euclidean division that the byte-packing proofs rely on. */
module Arith {

  lemma {:induction false} MulAtLeast(k: int, m: int)
    requires k >= 1 && m > 0
    ensures k * m >= m
    decreases k
  {
    if k > 1 {
      MulAtLeast(k - 1, m);
      assert k * m == (k - 1) * m + m;
    }
  }

  /** Quotient and remainder are unique: writing x as q * m + r with r in [0, m) pins both. */
  lemma DivMod(x: int, q: int, r: int, m: int)
    requires m > 0 && 0 <= r < m && x == q * m + r
    ensures x / m == q && x % m == r
  {
    var q', r' := x / m, x % m;
    assert x == q' * m + r';
    assert (q - q') * m == r' - r;
    if q > q' { MulAtLeast(q - q', m); }
    if q < q' { MulAtLeast(q' - q, m); }
  }

  /** The base-256 digit of x at weight w: (x / w) % 256 picks d out of (hi * 256 + d) * w + lo. */
  lemma DigitAt(x: int, hi: int, d: int, lo: int, w: int)
    requires w > 0 && 0 <= d < 256 && 0 <= lo < w && x == (hi * 256 + d) * w + lo
    ensures (x / w) % 256 == d
  {
    DivMod(x, hi * 256 + d, lo, w);
    DivMod(hi * 256 + d, hi, d, 256);
  }
}
