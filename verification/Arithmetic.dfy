/** Facts about products and about division with remainder. */
module Arithmetic {
  lemma {:induction false} MulAtLeast(d: nat, k: nat)
    requires k >= 1
    ensures d * k >= d
  {
    if k > 1 {
      MulAtLeast(d, k - 1);
      assert d * k == d * (k - 1) + d;
    }
  }

  lemma DivisionIsUnique(x: nat, d: nat, q: nat, r: nat)
    requires d > 0 && x == d * q + r && r < d
    ensures x % d == r && x / d == q
  {
    var p, s := x / d, x % d;
    assert d * p + s == d * q + r;
    if q > p {
      MulAtLeast(d, q - p);
      assert false;
    } else if q < p {
      MulAtLeast(d, p - q);
      assert false;
    }
  }

  lemma MulAssociative(a: int, b: int, c: int)
    ensures (a * b) * c == a * (b * c)
  {
  }

  lemma MulDistributes(a: int, b: int, c: int)
    ensures a * (b + c) == a * b + a * c && (b + c) * a == b * a + c * a
  {
  }

  lemma MulMonotone(a: nat, b: nat, c: nat)
    requires b <= c
    ensures a * b <= a * c
  {
  }

  /** Adding the divisor does not change the remainder. */
  lemma ModAdd(x: nat, d: nat)
    requires d > 0
    ensures (x + d) % d == x % d && (x + d) / d == x / d + 1
  {
    var q := x / d;
    assert x + d == d * (q + 1) + x % d;
    DivisionIsUnique(x + d, d, q + 1, x % d);
  }

  function Pow256(n: nat): (p: nat)
    ensures p > 0
  {
    if n == 0 then 1 else 256 * Pow256(n - 1)
  }

  lemma {:induction false} Pow256Monotone(m: nat, n: nat)
    requires m < n
    ensures 256 * Pow256(m) <= Pow256(n)
  {
    if m + 1 < n {
      Pow256Monotone(m, n - 1);
    }
  }

  /** The remainder by 256 p from the lowest byte and the remainder of the rest by p. */
  lemma ModSplit(x: nat, p: nat)
    requires p > 0
    ensures x % (256 * p) == x % 256 + 256 * (x / 256 % p)
  {
    var q := x / 256;
    var t, u := q / p, q % p;
    assert q == p * t + u;
    assert x == 256 * q + x % 256;
    assert x == (256 * p) * t + (256 * u + x % 256);
    DivisionIsUnique(x, 256 * p, t, 256 * u + x % 256);
  }
}
