/** Trial division by odd numbers up to the square root, and the search for the next prime, in
    32-bit arithmetic that wraps around. */
module Primes {
  import opened Arithmetic
  import opened Divisors
  import LargestPrime

  const WIDTH: nat := 0x1_0000_0000

  // ---------------------------------------------------------------- isPrime

  function SqrtFrom(x: nat, r: nat): (s: nat)
    requires r * r <= x
    ensures s * s <= x < (s + 1) * (s + 1)
    decreases x - r * r
  {
    if x < (r + 1) * (r + 1) then r
    else
      assert (r + 1) * (r + 1) == r * r + 2 * r + 1;
      SqrtFrom(x, r + 1)
  }

  /** The integer part of the square root. */
  function Sqrt(x: nat): (r: nat)
    ensures r * r <= x < (r + 1) * (r + 1)
  {
    SqrtFrom(x, 0)
  }

  predicate NoDivisorBelow(factor: nat, x: nat) {
    forall d :: 2 <= d < factor ==> !Divides(d, x)
  }

  lemma SquareBound(d: nat, x: nat, limit: nat)
    requires d * d <= x < (limit + 1) * (limit + 1)
    ensures d <= limit
  {
    if d > limit {
      MulMonotone(d, limit + 1, d);
      MulMonotone(limit + 1, limit + 1, d);
      assert false;
    }
  }

  lemma AllTried(x: nat, factor: nat, limit: nat)
    requires NoDivisorBelow(factor, x) && limit < factor && x < (limit + 1) * (limit + 1)
    ensures x >= 2 ==> Prime(x)
  {
    if x >= 2 && !Prime(x) {
      var d := CompositeHasSmallDivisor(x);
      SquareBound(d, x, limit);
      assert false;
    }
  }

  lemma FactorIsProper(x: nat, factor: nat, limit: nat)
    requires 3 <= factor <= limit && limit * limit <= x && Divides(factor, x)
    ensures !Prime(x)
  {
    MulMonotone(factor, 3, limit);
    MulMonotone(limit, factor, limit);
  }

  /** An odd number has no even divisor. */
  lemma OddStep(x: nat, factor: nat)
    requires x % 2 == 1 && factor % 2 == 1 && NoDivisorBelow(factor, x) && !Divides(factor, x)
    ensures NoDivisorBelow(factor + 2, x)
  {
    if Divides(factor + 1, x) {
      assert Divides(2, factor + 1);
      DividesTrans(2, factor + 1, x);
      assert false;
    }
  }

  lemma SmallPrimes()
    ensures Prime(2) && Prime(3)
  {
  }

  /** Exact from 2 up; 1 counts as prime and 0 does not. */
  method IsPrime(x: nat) returns (r: bool)
    requires x < WIDTH
    ensures r <==> x == 1 || Prime(x)
  {
    if x != 0 && x < 4 {
      SmallPrimes();
      return true;
    } else if x % 2 == 0 {
      assert Divides(2, x);
      return false;
    }
    var limit := Sqrt(x);
    var factor := 3;
    while factor <= limit
      invariant 3 <= factor && factor % 2 == 1
      invariant NoDivisorBelow(factor, x)
    {
      if x % factor == 0 {
        FactorIsProper(x, factor, limit);
        return false;
      }
      OddStep(x, factor);
      factor := factor + 2;
    }
    r := true;
    AllTried(x, factor, limit);
  }

  // ---------------------------------------------------------------- findPrimeLargerThan

  predicate LeastPrimeAbove(p: nat, x: nat) {
    Prime(p) && p > x && forall q :: x < q < p ==> !Prime(q)
  }

  predicate PrimeInReach(x: nat) {
    exists p :: x < p < WIDTH && Prime(p)
  }

  /** The search is at an odd y with no prime passed over, or has wrapped round to 1. */
  predicate Searching(x: nat, y: nat) {
    y % 2 == 1 && y < WIDTH && (x >= 2 ==> y == 1 || y > x) && (x == 0 ==> y == 1) && (x == 1 ==> y == 3) &&
    (x >= 2 ==> forall q :: x < q < (if y == 1 then WIDTH else y) ==> !Prime(q))
  }

  lemma EvenIsComposite(q: nat)
    requires q > 2 && q % 2 == 0
    ensures !Prime(q)
  {
    assert Divides(2, q);
  }

  lemma SearchStarts(x: nat)
    requires x < WIDTH
    ensures Searching(x, (x + x % 2 + 1) % WIDTH)
  {
    var y := x + x % 2 + 1;
    if x >= 2 {
      forall q | x < q < y ensures !Prime(q) {
        EvenIsComposite(q);
      }
    }
  }

  lemma SearchGoesOn(x: nat, y: nat)
    requires Searching(x, y) && y != 1 && !Prime(y) && x >= 2
    ensures Searching(x, (y + 2) % WIDTH)
  {
    EvenIsComposite(y + 1);
  }

  lemma SearchEnds(x: nat, y: nat)
    requires Searching(x, y) && (y == 1 || Prime(y))
    ensures LeastPrimeAbove(y, x) <==> x >= 2 && PrimeInReach(x)
    ensures !LeastPrimeAbove(y, x) ==> y == if x == 1 then 3 else 1
  {
    SmallPrimes();
  }

  /** The last number with a prime above it in 32 bits comes before 4294967291. */
  lemma ReachEnds(x: nat)
    requires x < WIDTH
    ensures PrimeInReach(x) <==> x < 4294967291
  {
    LargestPrime.LargestIsPrime();
    if PrimeInReach(x) {
      var p :| x < p < WIDTH && Prime(p);
      if p > LargestPrime.LARGEST {
        LargestPrime.NoneLarger(p);
      }
    }
  }

  /** Always returns, and returns the least prime above x if and only if x is at least 2 and below
      the largest prime of 32 bits. Otherwise the search has wrapped round to 1, which passes the
      test, or, from 1, has stepped over 2. */
  method FindPrimeLargerThan(x: nat) returns (r: nat)
    requires x < WIDTH
    ensures LeastPrimeAbove(r, x) <==> 2 <= x < 4294967291
    ensures !LeastPrimeAbove(r, x) ==> r == if x == 1 then 3 else 1
  {
    SmallPrimes();
    SearchStarts(x);
    r := (x + x % 2 + 1) % WIDTH;
    var found := IsPrime(r);
    while !found
      invariant Searching(x, r) && (found <==> r == 1 || Prime(r))
      decreases if found then 0 else WIDTH - r
    {
      SearchGoesOn(x, r);
      r := (r + 2) % WIDTH;
      found := IsPrime(r);
    }
    SearchEnds(x, r);
    ReachEnds(x);
  }
}
