/** Divisors and primes. */
module Divisors {
  import opened Arithmetic

  predicate Divides(d: nat, x: nat) {
    d > 0 && x % d == 0
  }

  predicate Prime(x: nat) {
    x >= 2 && forall d :: 2 <= d < x ==> !Divides(d, x)
  }

  lemma DividesProduct(d: nat, x: nat, q: nat)
    requires d > 0 && x == d * q
    ensures Divides(d, x)
  {
    assert x == d * q + 0;
    DivisionIsUnique(x, d, q, 0);
  }

  lemma DividesTrans(a: nat, b: nat, c: nat)
    requires Divides(a, b) && Divides(b, c)
    ensures Divides(a, c)
  {
    var p, q := b / a, c / b;
    assert c == b * q && b == a * p;
    assert c == a * (p * q) by {
      assert (a * p) * q == a * (p * q);
    }
    DividesProduct(a, c, p * q);
  }

  /** The least divisor above 1, which is prime. */
  function LeastDivisor(x: nat, from: nat): (d: nat)
    requires 2 <= from <= x
    requires forall e :: 2 <= e < from ==> !Divides(e, x)
    ensures from <= d <= x && Divides(d, x)
    ensures forall e :: 2 <= e < d ==> !Divides(e, x)
    decreases x - from
  {
    if Divides(from, x) then from else if from == x then assert false; x else LeastDivisor(x, from + 1)
  }

  /** A composite number has a divisor that is not above its square root. */
  lemma CompositeHasSmallDivisor(x: nat) returns (d: nat)
    requires x >= 2 && !Prime(x)
    ensures 2 <= d && d * d <= x && Divides(d, x)
  {
    d := LeastDivisor(x, 2);
    var q := x / d;
    assert x == d * q == q * d;
    DividesProduct(q, x, d);
    if q <= 1 {
      assert false;
    }
    if q < d {
      assert false;
    }
    MulMonotone(d, d, q);
  }

  /** The least positive m for which r divides m b divides every such m. */
  function LeastMultiplier(r: nat, b: nat, from: nat): (m: nat)
    requires 0 < from <= r
    requires forall k :: 0 < k < from ==> !Divides(r, k * b)
    ensures from <= m <= r && Divides(r, m * b)
    ensures forall k :: 0 < k < m ==> !Divides(r, k * b)
    decreases r - from
  {
    if Divides(r, from * b) then from
    else if from == r then DividesProduct(r, r * b, b); from
    else LeastMultiplier(r, b, from + 1)
  }

  lemma NonNegative(r: nat, q: int, x: nat)
    requires r > 0 && x == r * q
    ensures q >= 0
  {
    if q < 0 {
      MulAtLeast(r, -q);
      assert false;
    }
  }

  lemma MultiplierDivides(r: nat, b: nat, m: nat, k: nat)
    requires r > 0 && m > 0 && Divides(r, m * b) && Divides(r, k * b)
    requires forall l :: 0 < l < m ==> !Divides(r, l * b)
    ensures Divides(m, k)
  {
    var t, l := k / m, k % m;
    var x, y := m * b / r, k * b / r;
    assert m * b == r * x && k * b == r * y;
    assert l == k - m * t;
    assert l * b == k * b - t * (m * b) by {
      assert (k - m * t) * b == k * b - (m * t) * b;
      assert (m * t) * b == t * (m * b);
    }
    assert t * (m * b) == r * (t * x) by {
      assert t * (r * x) == r * (t * x);
    }
    assert l * b == r * (y - t * x);
    NonNegative(r, y - t * x, l * b);
    DividesProduct(r, l * b, y - t * x);
  }

  /** A prime that divides a product divides one of the factors. */
  lemma EuclidLemma(r: nat, a: nat, b: nat)
    requires Prime(r) && Divides(r, a * b) && !Divides(r, a)
    ensures Divides(r, b)
  {
    var m := LeastMultiplier(r, b, 1);
    DividesProduct(r, r * b, b);
    MultiplierDivides(r, b, m, r);
    MultiplierDivides(r, b, m, a);
    assert m == 1 || m == r;
  }

  lemma CancelLeft(r: nat, x: nat, y: nat)
    requires r > 0 && r * x == r * y
    ensures x == y
  {
    if x < y {
      MulAtLeast(r, y - x);
      MulDistributes(r, y - x, x);
      assert false;
    } else if y < x {
      MulAtLeast(r, x - y);
      MulDistributes(r, x - y, y);
      assert false;
    }
  }

  /** The part of the other factor that is left when r is taken out of this one. */
  lemma Cofactor(r: nat, d: nat, e: nat)
    requires Divides(r, d) && r * r == d * e
    ensures r == (d / r) * e && d == r * (d / r)
  {
    var f := d / r;
    assert d == r * f;
    MulAssociative(r, f, e);
    CancelLeft(r, r, f * e);
  }

  lemma MultipleDivides(r: nat, d: nat, e: nat)
    requires Prime(r) && Divides(r, d) && r * r == d * e
    ensures d == r || d == r * r
  {
    var f := d / r;
    Cofactor(r, d, e);
    DividesProduct(f, r, e);
    assert f == 1 || f == r;
  }

  lemma CoprimeDivides(r: nat, d: nat, e: nat)
    requires Prime(r) && d > 0 && !Divides(r, d) && r * r == d * e
    ensures d == 1 || d == r
  {
    DividesProduct(r, d * e, r);
    EuclidLemma(r, d, e);
    Cofactor(r, e, d);
    DividesProduct(d, r, e / r);
  }

  /** The divisors of the square of a prime. */
  lemma DivisorsOfSquare(r: nat, d: nat)
    requires Prime(r) && Divides(d, r * r)
    ensures d == 1 || d == r || d == r * r
  {
    var e := r * r / d;
    if Divides(r, d) {
      MultipleDivides(r, d, e);
    } else {
      CoprimeDivides(r, d, e);
    }
  }
}
