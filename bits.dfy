/** Powers of two and the quotient-and-remainder facts that shifting and masking rest on. */
module Bits {
  /** An unsigned 8-bit value. */
  type byte = b: int | 0 <= b < 256

  /** `2` to the power `n`: a left shift by `n`. */
  function Pow2(n: nat): (r: nat)
    ensures r >= 1
  {
    if n == 0 then 1 else 2 * Pow2(n - 1)
  }

  /** Shifting by `a` and then by `b` is shifting by `a + b`. */
  lemma {:induction false} Pow2Add(a: nat, b: nat)
    ensures Pow2(a + b) == Pow2(a) * Pow2(b)
    decreases a
  {
    if a > 0 {
      Pow2Add(a - 1, b);
      assert Pow2(a + b) == 2 * Pow2(a - 1 + b);
    }
  }

  /** A positive multiple of `m` is at least `m`. */
  lemma {:induction false} MulAtLeast(a: int, m: int)
    requires a >= 1 && m >= 0
    ensures a * m >= m
    decreases a
  {
    if a > 1 {
      MulAtLeast(a - 1, m);
      assert a * m == (a - 1) * m + m;
    }
  }

  /** Division and remainder are the only quotient and remainder. */
  lemma DivModUnique(y: int, m: int, q: int, r: int)
    requires m > 0 && y == q * m + r && 0 <= r < m
    ensures y / m == q && y % m == r
  {
    var q' := y / m;
    var r' := y % m;
    assert y == q' * m + r';
    if q > q' {
      MulAtLeast(q - q', m);
    } else if q < q' {
      MulAtLeast(q' - q, m);
    }
  }

  /** Halving after dividing by `m` is dividing by `2 m`. */
  lemma DivTwice(y: nat, m: nat)
    requires m > 0
    ensures y / (2 * m) == (y / m) / 2
  {
    var q := y / m;
    assert y == q * m + y % m;
    assert q == 2 * (q / 2) + q % 2;
    assert y == (q / 2) * (2 * m) + ((q % 2) * m + y % m);
    DivModUnique(y, 2 * m, q / 2, (q % 2) * m + y % m);
  }
}
